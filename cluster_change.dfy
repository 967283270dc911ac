/**
 * A cluster change as the scheduler sees it: its apply operation, the wait
 * operation it was created with, and the one-way "needs waiting" mark that the
 * wait-propagation pass may set.
 */
module ClusterChanges {
  import opened Ops

  datatype ClusterChange = ClusterChange(applyOp: ApplyOp, origWaitOp: Ops.WaitOp, needsWaiting: bool)
  {
    /** The wait operation the change reports: once marked it is never Noop. */
    function WaitOp(): (w: Ops.WaitOp)
      ensures needsWaiting ==> w != Ops.WaitOp.Noop
      ensures origWaitOp != Ops.WaitOp.Noop ==> w == origWaitOp
      ensures w != Ops.WaitOp.Noop <==> needsWaiting || origWaitOp != Ops.WaitOp.Noop
    {
      if needsWaiting && origWaitOp == Ops.WaitOp.Noop then Ops.WaitOp.OK else origWaitOp
    }

    /** The change after MarkNeedsWaiting: the apply operation is untouched. */
    function MarkNeedsWaiting(): (c: ClusterChange)
      ensures c.applyOp == applyOp && c.origWaitOp == origWaitOp
      ensures c.WaitOp() != Ops.WaitOp.Noop
      ensures WaitOp() != Ops.WaitOp.Noop ==> c.WaitOp() == WaitOp()
      ensures c.needsWaiting
    {
      this.(needsWaiting := true)
    }
  }

  /** Marking twice is the same as marking once. */
  lemma MarkIdempotent(c: ClusterChange)
    ensures c.MarkNeedsWaiting().MarkNeedsWaiting() == c.MarkNeedsWaiting()
  {
  }
}
