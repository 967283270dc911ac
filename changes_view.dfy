/**
 * The counting and labelling logic of the changes view: the op-code cells of
 * the table and the summary line built by ChangesCountsView. Table layout and
 * printing are not modelled; Print is kept for the summary it stores.
 */
module ChangesView {
  import opened Ops
  import Decimal

  /** A table value: its text and whether it is highlighted as an error. */
  datatype Cell = Cell(text: string, error: bool)

  /** applyOpCodeUI: the table has a label for exactly the known apply ops. */
  function ApplyOpCodeUI(): (m: map<ApplyOp, string>)
    ensures forall op :: op in m <==> !op.Unknown?
  {
    map[ApplyOp.Add := "create", ApplyOp.Delete := "delete", ApplyOp.Update := "update", ApplyOp.Noop := "noop"]
  }

  /** waitOpCodeUI: the table has a label for exactly the known wait ops. */
  function WaitOpCodeUI(): (m: map<WaitOp, string>)
    ensures forall op :: op in m <==> !op.Unknown?
  {
    map[WaitOp.OK := "reconcile", WaitOp.Delete := "delete", WaitOp.Noop := "noop"]
  }

  /** The "Op" cell: deletes are highlighted, noops are blank, unknown ops show "???". */
  function ApplyOpCode(op: ApplyOp): (c: Cell)
    ensures c.error <==> op == ApplyOp.Delete
    ensures c.text == "" <==> op == ApplyOp.Noop
    ensures c.text == "???" <==> op.Unknown?
    ensures op in ApplyOpCodeUI() && op != ApplyOp.Noop ==> c.text == ApplyOpCodeUI()[op]
  {
    match op
    case Add => Cell(ApplyOpCodeUI()[op], false)
    case Delete => Cell(ApplyOpCodeUI()[op], true)
    case Update => Cell(ApplyOpCodeUI()[op], false)
    case Noop => Cell("", false)
    case Unknown(_) => Cell("???", false)
  }

  /** The "Wait to" cell: never highlighted, noops are blank, unknown ops show "???". */
  function WaitOpCode(op: WaitOp): (c: Cell)
    ensures !c.error
    ensures c.text == "" <==> op == WaitOp.Noop
    ensures c.text == "???" <==> op.Unknown?
    ensures op in WaitOpCodeUI() && op != WaitOp.Noop ==> c.text == WaitOpCodeUI()[op]
  {
    match op
    case OK => Cell(WaitOpCodeUI()[op], false)
    case Delete => Cell(WaitOpCodeUI()[op], false)
    case Noop => Cell("", false)
    case Unknown(_) => Cell("???", false)
  }

  /** Distinct known apply ops get distinct labels, so the Op column identifies the op. */
  lemma ApplyOpCodeIdentifiesOp(a: ApplyOp, b: ApplyOp)
    requires !a.Unknown? && !b.Unknown?
    ensures ApplyOpCode(a).text == ApplyOpCode(b).text ==> a == b
  {
  }

  /** Distinct known wait ops get distinct labels. */
  lemma WaitOpCodeIdentifiesOp(a: WaitOp, b: WaitOp)
    requires !a.Unknown? && !b.Unknown?
    ensures WaitOpCode(a).text == WaitOpCode(b).text ==> a == b
  {
  }

  // Counting specification: what the counts view holds after a series of Add calls.

  function CountApply(views: seq<ChangeView>, op: ApplyOp): nat
    decreases |views|
  {
    if views == [] then 0
    else CountApply(views[..|views| - 1], op) + (if views[|views| - 1].applyOp == op then 1 else 0)
  }

  function CountUnknownApply(views: seq<ChangeView>): nat
    decreases |views|
  {
    if views == [] then 0
    else CountUnknownApply(views[..|views| - 1]) + (if views[|views| - 1].applyOp.Unknown? then 1 else 0)
  }

  function CountWaiting(views: seq<ChangeView>): nat
    decreases |views|
  {
    if views == [] then 0
    else CountWaiting(views[..|views| - 1]) + (if views[|views| - 1].waitOp != WaitOp.Noop then 1 else 0)
  }

  /** Adding a view counts it under its own apply op and no other. */
  lemma CountApplyAppend(views: seq<ChangeView>, v: ChangeView, op: ApplyOp)
    ensures CountApply(views + [v], op) == CountApply(views, op) + (if v.applyOp == op then 1 else 0)
  {
    assert (views + [v])[..|views|] == views;
  }

  /** Adding a view counts it as waiting exactly when its wait op is not a noop. */
  lemma CountWaitingAppend(views: seq<ChangeView>, v: ChangeView)
    ensures CountWaiting(views + [v]) == CountWaiting(views) + (if v.waitOp != WaitOp.Noop then 1 else 0)
  {
    assert (views + [v])[..|views|] == views;
  }

  /**
   * Every added change is counted under exactly one apply op: the four visible
   * counts plus the unknown ones sum to the number of adds, and the wait count
   * is at most that number.
   */
  lemma {:induction false} CountsCoverAdds(views: seq<ChangeView>)
    ensures CountApply(views, ApplyOp.Add) + CountApply(views, ApplyOp.Delete)
          + CountApply(views, ApplyOp.Update) + CountApply(views, ApplyOp.Noop)
          + CountUnknownApply(views) == |views|
    ensures CountWaiting(views) <= |views|
    decreases |views|
  {
    if views != [] {
      CountsCoverAdds(views[..|views| - 1]);
    }
  }

  /** One part of the summary line: a count and its label. */
  function CountPart(n: int, name: string): string {
    Decimal.IntToString(n) + " " + name
  }

  /** The summary line: the four visible apply ops in a fixed order, then the wait count, joined with ", ". */
  function FormatCounts(add: int, delete: int, update: int, noop: int, wait: int): string
  {
    Join([CountPart(add, ApplyOpCodeUI()[ApplyOp.Add]), CountPart(delete, ApplyOpCodeUI()[ApplyOp.Delete]),
          CountPart(update, ApplyOpCodeUI()[ApplyOp.Update]), CountPart(noop, ApplyOpCodeUI()[ApplyOp.Noop]),
          Decimal.IntToString(wait) + " wait to"], ", ")
  }

  /** strings.Join */
  function Join(parts: seq<string>, sep: string): string
    decreases |parts|
  {
    if parts == [] then ""
    else if |parts| == 1 then parts[0]
    else parts[0] + sep + Join(parts[1..], sep)
  }

  /** Five parts joined: each separator sits between two consecutive parts. */
  lemma JoinFive(parts: seq<string>, sep: string)
    requires |parts| == 5
    ensures Join(parts, sep) == parts[0] + sep + parts[1] + sep + parts[2] + sep + parts[3] + sep + parts[4]
  {
    assert Join(parts[4..], sep) == parts[4];
    assert Join(parts[3..], sep) == parts[3] + sep + parts[4];
    assert Join(parts[2..], sep) == parts[2] + sep + (parts[3] + sep + parts[4]);
    assert Join(parts[1..], sep) == parts[1] + sep + (parts[2] + sep + (parts[3] + sep + parts[4]));
  }

  /** The summary line spelled out, e.g. "1 create, 0 delete, 2 update, 0 noop, 1 wait to". */
  lemma FormatCountsText(add: int, delete: int, update: int, noop: int, wait: int)
    ensures FormatCounts(add, delete, update, noop, wait) ==
              CountPart(add, "create") + ", " + CountPart(delete, "delete") + ", " + CountPart(update, "update")
              + ", " + CountPart(noop, "noop") + ", " + Decimal.IntToString(wait) + " wait to"
  {
    JoinFive([CountPart(add, "create"), CountPart(delete, "delete"), CountPart(update, "update"),
              CountPart(noop, "noop"), Decimal.IntToString(wait) + " wait to"], ", ");
  }

  /** The summary of a list of change views, as Print stores it. */
  function SummaryOf(views: seq<ChangeView>): string
  {
    FormatCounts(CountApply(views, ApplyOp.Add), CountApply(views, ApplyOp.Delete),
                 CountApply(views, ApplyOp.Update), CountApply(views, ApplyOp.Noop),
                 CountWaiting(views))
  }

  /** `applyOps[op]`: a Go map yields 0 for a key that was never set. */
  function Lookup(counts: map<ApplyOp, int>, op: ApplyOp): int {
    if op in counts then counts[op] else 0
  }

  /** The counts are those of the views added so far. */
  ghost predicate CountsAgree(counts: map<ApplyOp, int>, wait: int, views: seq<ChangeView>) {
    && wait == CountWaiting(views)
    && forall op :: Lookup(counts, op) == CountApply(views, op)
  }

  /** Incrementing the view's apply op and, unless its wait op is a noop, the wait count, counts one more view. */
  lemma AddKeepsAgreement(counts: map<ApplyOp, int>, wait: int, views: seq<ChangeView>, v: ChangeView)
    requires CountsAgree(counts, wait, views)
    ensures CountsAgree(counts[v.applyOp := Lookup(counts, v.applyOp) + 1],
                        wait + (if v.waitOp != WaitOp.Noop then 1 else 0), views + [v])
  {
    CountWaitingAppend(views, v);
    forall op
      ensures Lookup(counts[v.applyOp := Lookup(counts, v.applyOp) + 1], op) == CountApply(views + [v], op)
    {
      CountApplyAppend(views, v, op);
    }
  }

  class ChangesCountsView {
    var applyOps: map<ApplyOp, int>
    var waitOps: int
    /** The (apply op, wait op) pairs passed to Add so far. */
    ghost var added: seq<ChangeView>

    ghost predicate Valid()
      reads this
    {
      CountsAgree(applyOps, waitOps, added)
    }

    function ApplyOpCount(op: ApplyOp): int
      reads this
    {
      Lookup(applyOps, op)
    }

    /** NewChangesCountsView */
    constructor ()
      ensures Valid() && added == []
      ensures applyOps == map[] && waitOps == 0
    {
      applyOps := map[];
      waitOps := 0;
      added := [];
    }

    method Add(applyOp: ApplyOp, waitOp: WaitOp)
      requires Valid()
      modifies this
      ensures Valid() && added == old(added) + [ChangeView(applyOp, waitOp)]
      ensures ApplyOpCount(applyOp) == old(ApplyOpCount(applyOp)) + 1
      ensures forall op :: op != applyOp ==> ApplyOpCount(op) == old(ApplyOpCount(op))
      ensures waitOps == old(waitOps) + (if waitOp != WaitOp.Noop then 1 else 0)
    {
      AddKeepsAgreement(applyOps, waitOps, added, ChangeView(applyOp, waitOp));
      applyOps := applyOps[applyOp := ApplyOpCount(applyOp) + 1];
      if waitOp != WaitOp.Noop {
        waitOps := waitOps + 1;
      }
      added := added + [ChangeView(applyOp, waitOp)];
    }

    method String() returns (s: string)
      ensures s == FormatCounts(ApplyOpCount(ApplyOp.Add), ApplyOpCount(ApplyOp.Delete),
                                ApplyOpCount(ApplyOp.Update), ApplyOpCount(ApplyOp.Noop), waitOps)
    {
      var visibleApplyOps := [ApplyOp.Add, ApplyOp.Delete, ApplyOp.Update, ApplyOp.Noop];
      var result: seq<string> := [];
      for k := 0 to |visibleApplyOps|
        invariant |result| == k
        invariant forall m :: 0 <= m < k ==>
          result[m] == CountPart(ApplyOpCount(visibleApplyOps[m]), ApplyOpCodeUI()[visibleApplyOps[m]])
      {
        var op := visibleApplyOps[k];
        result := result + [Decimal.IntToString(ApplyOpCount(op)) + " " + ApplyOpCodeUI()[op]];
      }
      assert result[0] == CountPart(ApplyOpCount(ApplyOp.Add), ApplyOpCodeUI()[ApplyOp.Add]);
      assert result[1] == CountPart(ApplyOpCount(ApplyOp.Delete), ApplyOpCodeUI()[ApplyOp.Delete]);
      assert result[2] == CountPart(ApplyOpCount(ApplyOp.Update), ApplyOpCodeUI()[ApplyOp.Update]);
      assert result[3] == CountPart(ApplyOpCount(ApplyOp.Noop), ApplyOpCodeUI()[ApplyOp.Noop]);
      result := result + [Decimal.IntToString(waitOps) + " wait to"];
      assert result == [CountPart(ApplyOpCount(ApplyOp.Add), ApplyOpCodeUI()[ApplyOp.Add]),
                        CountPart(ApplyOpCount(ApplyOp.Delete), ApplyOpCodeUI()[ApplyOp.Delete]),
                        CountPart(ApplyOpCount(ApplyOp.Update), ApplyOpCodeUI()[ApplyOp.Update]),
                        CountPart(ApplyOpCount(ApplyOp.Noop), ApplyOpCodeUI()[ApplyOp.Noop]),
                        Decimal.IntToString(waitOps) + " wait to"];
      s := Join(result, ", ");
    }
  }

  class ChangesView {
    var changeViews: seq<ChangeView>
    var sort: bool
    var summary: string

    constructor (changeViews: seq<ChangeView>, sort: bool)
      ensures this.changeViews == changeViews && this.sort == sort && summary == ""
    {
      this.changeViews := changeViews;
      this.sort := sort;
      summary := "";
    }

    /** Print's effect on the view: the summary of every change view's ops. */
    method Print()
      modifies this`summary
      ensures summary == SummaryOf(changeViews) && Summary() == summary
    {
      var countsView := new ChangesCountsView();
      for k := 0 to |changeViews|
        invariant fresh(countsView) && countsView.Valid()
        invariant countsView.added == changeViews[..k]
      {
        countsView.Add(changeViews[k].applyOp, changeViews[k].waitOp);
        assert changeViews[..k + 1] == changeViews[..k] + [changeViews[k]];
      }
      assert changeViews[..|changeViews|] == changeViews;
      summary := countsView.String();
    }

    function Summary(): string
      reads this
    {
      summary
    }
  }
}
