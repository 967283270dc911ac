/**
 * The operation kinds of the cluster-apply package.
 *
 * Go models these as named constants of a defined type, so a value outside the
 * listed constants can still reach a switch; `Unknown` stands for any such value.
 */
module Ops {

  /** ClusterChangeApplyOp: what to do to the resource on the cluster. */
  datatype ApplyOp = Add | Delete | Update | Noop | Unknown(name: string)

  /** ClusterChangeWaitOp: what terminal state to wait for after applying. */
  datatype WaitOp = OK | Delete | Noop | Unknown(name: string)

  /** ActualChangeOp: the coarse operation kind the change graph orders by. */
  datatype ActualChangeOp = Upsert | Delete | Noop

  /** ChangeView, as the changes view reads it: a change's apply and wait operations. */
  datatype ChangeView = ChangeView(applyOp: ApplyOp, waitOp: WaitOp)
}
