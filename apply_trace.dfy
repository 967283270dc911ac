/**
 * The calls the Apply loop makes on its collaborators, recorded as a trace,
 * and the rules every call in a run obeys. Apply's contract is stated over
 * this trace; the lemmas here derive the scheduler's guarantees from it.
 */
module ApplyTrace {
  import opened Wrappers
  import opened Collections
  import opened ChangeGraphs

  datatype Event =
      /** applyingChanges.Apply(blockedChanges.Unblocked()) and its answer */
    | ApplyCall(nodes: seq<nat>, applied: seq<nat>, failure: Option<string>)
      /** waitingChanges.IsEmpty() answered true; NumApplied() was then read */
    | Settled(numApplied: nat)
      /** waitingChanges.WaitForAny() and its answer */
    | WaitCall(done: seq<nat>, failure: Option<string>)
      /** blockedChanges.Unblock(node) */
    | UnblockCall(node: nat)
  {
    /** Whether Apply returns right after this call. */
    predicate Ends() {
      Settled? || ((ApplyCall? || WaitCall?) && failure.Some?)
    }
  }

  function NewlyApplied(e: Event): set<nat> {
    if e.ApplyCall? then Elements(e.applied) else {}
  }

  function NewlyDone(e: Event): set<nat> {
    if e.WaitCall? then Elements(e.done) else {}
  }

  /** Every node the applying tracker reported applied. */
  function AppliedNodes(t: seq<Event>): set<nat>
    decreases |t|
  {
    if t == [] then {} else AppliedNodes(t[..|t| - 1]) + NewlyApplied(t[|t| - 1])
  }

  /** Every node the waiting tracker reported done. */
  function ReportedDone(t: seq<Event>): set<nat>
    decreases |t|
  {
    if t == [] then {} else ReportedDone(t[..|t| - 1]) + NewlyDone(t[|t| - 1])
  }

  /** The unblocked nodes are handed over, and the tracker applies those not applied before. */
  ghost predicate ApplyCallOK(g: ChangeGraph, h: seq<Event>, nodes: seq<nat>, applied: seq<nat>, failure: Option<string>)
    reads g
    requires g.Valid()
  {
    && (forall i :: i in nodes <==> g.UnblockedBy(ReportedDone(h), i))
    && (failure.None? ==> Distinct(applied) && forall i :: i in applied <==> i in nodes && i !in AppliedNodes(h))
    && (failure.Some? ==> applied == [])
  }

  /** IsEmpty() is asked after a successful apply, and is true when every applied node was reported done. */
  ghost predicate SettledOK(h: seq<Event>, numApplied: nat) {
    && h != [] && h[|h| - 1].ApplyCall? && h[|h| - 1].failure.None?
    && AppliedNodes(h) <= ReportedDone(h)
    && numApplied == |AppliedNodes(h)|
  }

  /** WaitForAny() is called when IsEmpty() is false, and reports applied nodes not reported before. */
  ghost predicate WaitCallOK(h: seq<Event>, done: seq<nat>, failure: Option<string>) {
    && h != [] && h[|h| - 1].ApplyCall? && h[|h| - 1].failure.None?
    && !(AppliedNodes(h) <= ReportedDone(h))
    && (failure.None? ==> done != [] && Distinct(done) &&
                          forall i :: i in done ==> i in AppliedNodes(h) && i !in ReportedDone(h))
    && (failure.Some? ==> done == [])
  }

  /** What call e may be, with its answer, after the calls h. */
  ghost predicate EventOK(g: ChangeGraph, h: seq<Event>, e: Event)
    reads g
    requires g.Valid()
  {
    match e
    case ApplyCall(nodes, applied, failure) => ApplyCallOK(g, h, nodes, applied, failure)
    case Settled(numApplied) => SettledOK(h, numApplied)
    case WaitCall(done, failure) => WaitCallOK(h, done, failure)
    case UnblockCall(node) => node in ReportedDone(h)
  }

  /** Every call of the trace obeys the rules, given the calls before it. */
  ghost predicate RunOK(g: ChangeGraph, t: seq<Event>)
    reads g
    requires g.Valid()
    decreases |t|
  {
    t == [] || (RunOK(g, t[..|t| - 1]) && EventOK(g, t[..|t| - 1], t[|t| - 1]))
  }

  /** No call of the trace ends the run. */
  ghost predicate NoEnds(t: seq<Event>)
    decreases |t|
  {
    t == [] || (NoEnds(t[..|t| - 1]) && !t[|t| - 1].Ends())
  }

  /** The last call, and only it, ends the run. */
  ghost predicate EndsOnlyAtLast(t: seq<Event>) {
    t != [] && t[|t| - 1].Ends() && NoEnds(t[..|t| - 1])
  }

  /** Appending an allowed call to a run that has not ended, with what it does to the reported sets. */
  lemma Step(g: ChangeGraph, t: seq<Event>, e: Event)
    requires g.Valid() && RunOK(g, t) && NoEnds(t) && EventOK(g, t, e)
    ensures RunOK(g, t + [e])
    ensures AppliedNodes(t + [e]) == AppliedNodes(t) + NewlyApplied(e)
    ensures ReportedDone(t + [e]) == ReportedDone(t) + NewlyDone(e)
    ensures ReportedDone(t + [e]) <= AppliedNodes(t + [e])
    ensures forall i :: i in AppliedNodes(t + [e]) ==> i < |g.present| && g.present[i]
    ensures !e.Ends() ==> NoEnds(t + [e])
    ensures e.Ends() ==> EndsOnlyAtLast(t + [e])
  {
    assert (t + [e])[..|t|] == t;
    DoneWereApplied(g, t + [e]);
    AppliedArePresent(g, t + [e]);
  }

  /** Unblocking a node reported done keeps the run going and changes neither reported set. */
  lemma UnblockStep(g: ChangeGraph, t: seq<Event>, node: nat)
    requires g.Valid() && RunOK(g, t) && NoEnds(t) && node in ReportedDone(t)
    ensures RunOK(g, t + [UnblockCall(node)]) && NoEnds(t + [UnblockCall(node)])
    ensures ReportedDone(t + [UnblockCall(node)]) == ReportedDone(t)
    ensures AppliedNodes(t + [UnblockCall(node)]) == AppliedNodes(t)
  {
    assert (t + [UnblockCall(node)])[..|t|] == t;
  }

  /**
   * A successful apply: the applied set grows by the nodes applied now, the
   * done set stays, and tracking those nodes keeps the tracked set equal to
   * the applied nodes not yet done.
   */
  lemma AfterApply(g: ChangeGraph, t: seq<Event>, nodes: seq<nat>, applied: seq<nat>, tracked: set<nat>)
    requires g.Valid() && RunOK(g, t) && NoEnds(t)
    requires ApplyCallOK(g, t, nodes, applied, None)
    requires ReportedDone(t) <= AppliedNodes(t) && tracked == AppliedNodes(t) - ReportedDone(t)
    ensures RunOK(g, t + [ApplyCall(nodes, applied, None)]) && NoEnds(t + [ApplyCall(nodes, applied, None)])
    ensures AppliedNodes(t + [ApplyCall(nodes, applied, None)]) == AppliedNodes(t) + Elements(applied)
    ensures ReportedDone(t + [ApplyCall(nodes, applied, None)]) == ReportedDone(t)
    ensures tracked + Elements(applied) == AppliedNodes(t) + Elements(applied) - ReportedDone(t)
    ensures forall i :: i in AppliedNodes(t) + Elements(applied) ==> i < |g.present| && g.present[i]
  {
    var e := ApplyCall(nodes, applied, None);
    Step(g, t, e);
    assert NewlyDone(e) == {};
    forall x | x in Elements(applied) ensures x !in AppliedNodes(t) {
      assert x in applied;
    }
  }

  /** Every prefix of a run is a run. */
  lemma {:induction false} RunOKPrefix(g: ChangeGraph, t: seq<Event>, n: nat)
    requires g.Valid() && RunOK(g, t) && n <= |t|
    ensures RunOK(g, t[..n])
    decreases |t|
  {
    if n < |t| {
      var h := t[..|t| - 1];
      assert t[..n] == h[..n];
      RunOKPrefix(g, h, n);
    } else {
      assert t[..n] == t;
    }
  }

  /** Each call of a run obeys the rules, given the calls before it. */
  lemma RunOKAt(g: ChangeGraph, t: seq<Event>, k: nat)
    requires g.Valid() && RunOK(g, t) && k < |t|
    ensures EventOK(g, t[..k], t[k])
  {
    RunOKPrefix(g, t, k + 1);
    assert t[..k + 1][..k] == t[..k];
  }

  /** The waiting tracker only reports nodes that were applied. */
  lemma {:induction false} DoneWereApplied(g: ChangeGraph, t: seq<Event>)
    requires g.Valid() && RunOK(g, t)
    ensures ReportedDone(t) <= AppliedNodes(t)
    decreases |t|
  {
    if t != [] {
      var h := t[..|t| - 1];
      DoneWereApplied(g, h);
      var e := t[|t| - 1];
      assert EventOK(g, h, e);
      if e.WaitCall? {
        assert WaitCallOK(h, e.done, e.failure);
      }
    }
  }

  /** Only present nodes are ever applied. */
  lemma {:induction false} AppliedArePresent(g: ChangeGraph, t: seq<Event>)
    requires g.Valid() && RunOK(g, t)
    ensures forall i :: i in AppliedNodes(t) ==> i < |g.present| && g.present[i]
    decreases |t|
  {
    if t != [] {
      var h := t[..|t| - 1];
      AppliedArePresent(g, h);
      var e := t[|t| - 1];
      assert EventOK(g, h, e);
      if e.ApplyCall? {
        assert ApplyCallOK(g, h, e.nodes, e.applied, e.failure);
      }
    }
  }

  /**
   * Safety: a node is handed to the applying tracker only once every node it
   * depends on has been reported done by the waiting tracker.
   */
  lemma AppliedAfterDependencies(g: ChangeGraph, t: seq<Event>, k: nat, i: nat, j: nat)
    requires g.Valid() && RunOK(g, t) && k < |t| && t[k].ApplyCall?
    requires i in t[k].nodes && j < |g.waitingFor|
    ensures i < |g.waitingFor| && (g.DependsOn(i, j) ==> j in ReportedDone(t[..k]))
  {
    RunOKAt(g, t, k);
  }

  lemma {:induction false} AppliedNodesGrow(t: seq<Event>, n: nat)
    requires n <= |t|
    ensures AppliedNodes(t[..n]) <= AppliedNodes(t)
    decreases |t|
  {
    if n < |t| {
      var h := t[..|t| - 1];
      assert t[..n] == h[..n];
      AppliedNodesGrow(h, n);
    } else {
      assert t[..n] == t;
    }
  }

  /** No node is applied twice: an applied node is never among a later call's applied nodes. */
  lemma NoNodeAppliedTwice(g: ChangeGraph, t: seq<Event>, k: nat, m: nat)
    requires g.Valid() && RunOK(g, t) && k < m < |t|
    requires t[k].ApplyCall? && t[m].ApplyCall?
    ensures forall i :: i in t[k].applied ==> i !in t[m].applied
  {
    RunOKAt(g, t, m);
    var h := t[..m];
    AppliedNodesGrow(h, k + 1);
    assert h[..k + 1] == t[..k + 1];
    assert t[..k + 1][..k] == t[..k];
    assert AppliedNodes(t[..k + 1]) == AppliedNodes(t[..k]) + NewlyApplied(t[k]);
  }

  /** With nothing left to wait for, every node whose dependencies are done has been applied, so all were. */
  lemma {:induction false} ClosedSetHoldsAll(g: ChangeGraph, a: set<nat>, i: nat)
    requires g.Valid()
    requires forall x :: 0 <= x < |g.waitingFor| && g.UnblockedBy(a, x) ==> x in a
    requires i < |g.waitingFor| && g.present[i]
    ensures i in a
    decreases g.rank[i]
  {
    forall j | 0 <= j < |g.waitingFor| && g.DependsOn(i, j) ensures j in a {
      g.DependsOnLowerRank(i, j);
      ClosedSetHoldsAll(g, a, j);
    }
    assert g.UnblockedBy(a, i);
  }

  /** A set of present nodes closed under unblocking has as many elements as All(). */
  lemma ClosedSetSize(g: ChangeGraph, a: set<nat>)
    requires g.Valid()
    requires forall x :: x in a ==> x < |g.present| && g.present[x]
    requires forall x :: 0 <= x < |g.waitingFor| && g.UnblockedBy(a, x) ==> x in a
    ensures |a| == |g.All()|
  {
    forall x | 0 <= x < |g.waitingFor| && g.present[x] ensures x in a {
      ClosedSetHoldsAll(g, a, x);
    }
    var all := g.All();
    assert a == Elements(all);
    g.AllIncreasing();
    IncreasingDistinct(all);
    DistinctCard(all);
  }

  /** The last apply before settling handed over every unblocked node, and each got applied. */
  lemma SettlingCallClosesApplied(g: ChangeGraph, h: seq<Event>, call: Event, a: set<nat>)
    requires g.Valid() && call.ApplyCall? && call.failure.None?
    requires ApplyCallOK(g, h, call.nodes, call.applied, call.failure)
    requires a == AppliedNodes(h) + Elements(call.applied) && ReportedDone(h) == a
    ensures forall x :: 0 <= x < |g.waitingFor| && g.UnblockedBy(a, x) ==> x in a
  {
    forall x | 0 <= x < |g.waitingFor| && g.UnblockedBy(a, x) ensures x in a {
      assert x in call.nodes;
    }
  }

  /** When every applied node is done right after a successful apply, every present node was applied. */
  lemma AllAppliedWhenNothingPending(g: ChangeGraph, h: seq<Event>)
    requires g.Valid() && RunOK(g, h)
    requires h != [] && h[|h| - 1].ApplyCall? && h[|h| - 1].failure.None?
    requires AppliedNodes(h) <= ReportedDone(h)
    ensures |AppliedNodes(h)| == |g.All()|
  {
    var h' := h[..|h| - 1];
    var call := h[|h| - 1];
    assert EventOK(g, h', call);
    var a := AppliedNodes(h);
    assert ReportedDone(h) == ReportedDone(h');
    DoneWereApplied(g, h);
    SettlingCallClosesApplied(g, h', call, a);
    AppliedArePresent(g, h);
    ClosedSetSize(g, a);
  }

  /**
   * A run that settles (the waiting tracker became empty) has applied every
   * node of the graph: the count check after IsEmpty() always passes.
   */
  lemma SettledRunIsComplete(g: ChangeGraph, t: seq<Event>)
    requires g.Valid() && RunOK(g, t) && t != [] && t[|t| - 1].Settled?
    ensures t[|t| - 1].numApplied == |g.All()|
  {
    var h := t[..|t| - 1];
    AllAppliedWhenNothingPending(g, h);
  }

  /** The k-th call of a trace. */
  function CallAt(u: seq<Event>, k: nat): Event
    requires k < |u|
  {
    u[k]
  }

  /** The calls recorded in `t` are the first calls recorded in `u`. */
  ghost predicate Extends(t: seq<Event>, u: seq<Event>) {
    |t| <= |u| && forall k :: 0 <= k < |t| ==> CallAt(u, k) == CallAt(t, k)
  }

  /** Extends is exactly "a trace with `t` as its prefix". */
  lemma ExtendsIsPrefix(t: seq<Event>, u: seq<Event>)
    ensures Extends(t, u) <==> |u| >= |t| && u[..|t|] == t
  {
    if |u| >= |t| && u[..|t|] == t {
      forall k | 0 <= k < |t| ensures CallAt(u, k) == CallAt(t, k) {
        assert u[..|t|][k] == u[k];
      }
    }
    if Extends(t, u) {
      forall k | 0 <= k < |t| ensures u[..|t|][k] == t[k] {
        assert CallAt(u, k) == CallAt(t, k);
      }
    }
  }

  /** Recording one more call extends the trace, and whatever it extended. */
  lemma ExtendsByOne(a: seq<Event>, b: seq<Event>, e: Event)
    requires Extends(a, b)
    ensures Extends(a, b + [e]) && Extends(b, b + [e])
  {
    forall k | 0 <= k < |b| ensures CallAt(b + [e], k) == CallAt(b, k) {
    }
  }

  /** A trace that extends an extension of a trace extends that trace. */
  lemma ExtendsTransitive(a: seq<Event>, b: seq<Event>, c: seq<Event>)
    requires Extends(a, b) && Extends(b, c)
    ensures Extends(a, c)
  {
    forall k | 0 <= k < |a| ensures CallAt(c, k) == CallAt(a, k) {
      assert CallAt(c, k) == CallAt(b, k);
    }
  }
}
