/** Runs of the leaf store: any interleaving of committed transactions by any number of SDK instances. */
module TreeRuns {
  import opened Prelude
  import opened LeafSelection
  import opened TreeTables

  datatype Op =
    | AddOp(now: Time, nodes: seq<TreeNode>)
    | SetOp(now: Time, reported: seq<TreeNode>, missing: seq<TreeNode>, start: Time)
    | ReserveOp(now: Time, order: seq<LeafId>, id: ReservationId, targets: Option<TargetAmounts>,
                exactOnly: bool, purpose: ReservationPurpose)
    | UpdateOp(now: Time, id: ReservationId, reserved: seq<TreeNode>, change: seq<TreeNode>)
    | CancelOp(id: ReservationId)
    | FinalizeOp(now: Time, id: ReservationId, newLeaves: Option<seq<TreeNode>>)

  ghost function Step(db: TreeDb, op: Op): TreeDb {
    match op
    case AddOp(now, nodes) => AddLeaves(db, now, nodes)
    case SetOp(now, reported, missing, start) => SetLeaves(db, now, reported, missing, start)
    case ReserveOp(now, order, id, targets, exactOnly, purpose) =>
      TryReserve(db, now, order, id, targets, exactOnly, purpose)
    case UpdateOp(now, id, reserved, change) => Update(db, now, id, reserved, change)
    case CancelOp(id) => Cancel(db, id)
    case FinalizeOp(now, id, newLeaves) => Finalize(db, now, id, newLeaves)
  }

  /** The rows a reservation request reads are the rows of the table, in some order. */
  ghost predicate Possible(db: TreeDb, op: Op) {
    op.ReserveOp? ==> Lists(op.order, db.leaves)
  }

  ghost function Run(db: TreeDb, ops: seq<Op>): TreeDb {
    if ops == [] then db else Step(Run(db, ops[..|ops| - 1]), ops[|ops| - 1])
  }

  ghost predicate PossibleRun(db: TreeDb, ops: seq<Op>) {
    forall i :: 0 <= i < |ops| ==> Possible(Run(db, ops[..i]), ops[i])
  }

  lemma RunOneMore(db: TreeDb, ops: seq<Op>, i: nat)
    requires i < |ops|
    ensures Run(db, ops[..i + 1]) == Step(Run(db, ops[..i]), ops[i])
  {
    assert ops[..i + 1][..i] == ops[..i];
  }

  lemma PossiblePrefix(db: TreeDb, ops: seq<Op>)
    requires PossibleRun(db, ops) && ops != []
    ensures PossibleRun(db, ops[..|ops| - 1])
    ensures Possible(Run(db, ops[..|ops| - 1]), ops[|ops| - 1])
  {
    var prefix := ops[..|ops| - 1];
    forall i | 0 <= i < |prefix| ensures Possible(Run(db, prefix[..i]), prefix[i]) {
      assert prefix[..i] == ops[..i];
    }
  }

  /* ---------- what every run keeps ---------- */

  /** Rows are keyed by their leaf, the status column agrees with the stored leaf, and a row's reservation lives. */
  ghost predicate Consistent(db: TreeDb) {
    forall l :: l in db.leaves ==> RowConsistent(db, l, db.leaves[l])
  }

  predicate RowConsistent(db: TreeDb, l: LeafId, row: LeafRow) {
    && row.node.id == l
    && row.status == StatusText(row.node.status)
    && (row.reservation.Some? ==> row.reservation.value in db.reservations)
  }

  lemma AvailableLeavesAre(leaves: map<LeafId, LeafRow>, order: seq<LeafId>)
    requires forall l :: l in leaves ==> leaves[l].node.id == l
    requires forall i, j :: 0 <= i < j < |order| ==> order[i] != order[j]
    ensures var rows := AvailableLeaves(leaves, order);
            && DistinctIds(rows)
            && (forall n :: n in rows <==>
                  n.id in order && n.id in leaves && leaves[n.id].node == n && FastFilter(leaves[n.id]))
  {
    if order != [] {
      var k := |order| - 1;
      AvailableLeavesAre(leaves, order[..k]);
      assert order == order[..k] + [order[k]];
      assert order[k] !in order[..k];
    }
  }

  lemma MinimumSound(rows: seq<TreeNode>, target: nat)
    requires MinimumAmount(rows, target).Ok?
    ensures var chosen := MinimumAmount(rows, target).value.value;
            multiset(chosen) <= multiset(rows) && chosen != [] && Total(chosen) >= target > 0
  {
    var chosen := MinimumAmount(rows, target).value.value;
    assert rows == chosen + rows[|chosen|..];
  }

  /** What is taken is a bag of the rows, worth the target plus the pending change. */
  lemma DecisionSound(rows: seq<TreeNode>, pending: nat, targets: Option<TargetAmounts>, exactOnly: bool)
    requires DistinctIds(rows) && Decide(rows, pending, targets, exactOnly).Take?
    ensures var d := Decide(rows, pending, targets, exactOnly);
            && multiset(d.leaves) <= multiset(rows) && d.leaves != []
            && Total(d.leaves) >= TotalSats(targets) + d.pendingChange
  {
    if SelectByTargetAmounts(rows, targets).Ok? {
      TargetSelectionSound(rows, targets);
    } else {
      MinimumSound(rows, TotalSats(targets));
    }
  }

  lemma MinimumIsLeast(rows: seq<TreeNode>, target: nat)
    requires MinimumAmount(rows, target).Ok?
    ensures var chosen := MinimumAmount(rows, target).value.value;
            chosen != [] && Total(chosen[..|chosen| - 1]) < target
  {
    var chosen := MinimumAmount(rows, target).value.value;
    assert chosen[..|chosen| - 1] == rows[..|chosen| - 1];
  }

  lemma AmountSelectionIsNotEmpty(rows: seq<TreeNode>, amount: nat, fee: Option<nat>)
    requires SelectByTargetAmounts(rows, Some(AmountAndFee(amount, fee))).Ok?
    ensures SelectByTargetAmounts(rows, Some(AmountAndFee(amount, fee))).value.All() != []
  {
    var a := SelectByExactAmount(rows, amount).value.value;
    assert Total(a) == amount > 0;
  }

  lemma DenominationSelectionIsEmptyIff(rows: seq<TreeNode>, ds: seq<nat>)
    requires DistinctIds(rows) && Denominations(rows, ds).Ok?
    ensures Denominations(rows, ds).value == [] <==> ds == []
  {
    DenominationsExact(rows, ds);
  }

  /** An exact selection is empty only when nothing is asked for. */
  lemma EmptySelection(rows: seq<TreeNode>, targets: Option<TargetAmounts>)
    requires DistinctIds(rows) && SelectByTargetAmounts(rows, targets).Ok?
    ensures SelectByTargetAmounts(rows, targets).value.All() == []
       <==> (targets.None? && rows == []) || targets == Some(ExactDenominations([]))
  {
    match targets
    case None =>
    case Some(AmountAndFee(amount, fee)) => AmountSelectionIsNotEmpty(rows, amount, fee);
    case Some(ExactDenominations(ds)) =>
      DenominationSelectionIsEmptyIff(rows, ds);
      var chosen := Denominations(rows, ds).value;
      assert chosen + [] == chosen;
  }

  lemma DecisionWhenExact(rows: seq<TreeNode>, pending: nat, targets: Option<TargetAmounts>, exactOnly: bool)
    requires DistinctIds(rows) && SelectByTargetAmounts(rows, targets).Ok?
    ensures var chosen := SelectByTargetAmounts(rows, targets).value.All();
            && Decide(rows, pending, targets, exactOnly)
               == (if (targets.None? && rows == []) || targets == Some(ExactDenominations([]))
                   then Refuse(NonReservableLeaves) else Take(chosen, 0))
            && multiset(chosen) <= multiset(rows) && Total(chosen) <= Total(rows)
            && (chosen == [] <==> (targets.None? && rows == []) || targets == Some(ExactDenominations([])))
            && (if targets.None? then chosen == rows else Total(chosen) == TotalSats(targets))
  {
    TargetSelectionSound(rows, targets);
    SubBagTotal(SelectByTargetAmounts(rows, targets).value.All(), rows);
    EmptySelection(rows, targets);
  }

  lemma DecisionWhenInexact(rows: seq<TreeNode>, pending: nat, targets: Option<TargetAmounts>, exactOnly: bool)
    requires SelectByTargetAmounts(rows, targets).Err?
    ensures var d, target := Decide(rows, pending, targets, exactOnly), TotalSats(targets);
            && targets.Some? && targets != Some(ExactDenominations([]))
            && (d.Take? <==> !exactOnly && 0 < target <= Total(rows))
            && (d.Take? ==> multiset(d.leaves) <= multiset(rows) && d.leaves != []
                            && Total(d.leaves) == target + d.pendingChange
                            && Total(d.leaves[..|d.leaves| - 1]) < target)
            && (!d.Take? ==> d == Answer(if Total(rows) + pending >= target
                                         then WaitForPending(target, Total(rows), pending) else NotEnough))
  {
    var target := TotalSats(targets);
    if MinimumAmount(rows, target).Ok? {
      MinimumSound(rows, target);
      MinimumIsLeast(rows, target);
    }
  }

  /** What the selection means. An exact selection wins and leaves no change. Otherwise, unless exactness is demanded,
      a positive target is met exactly when the rows are worth it, by leaves that would fall short without the last
      one, and the surplus is the pending change. Everything else waits when pending change would help and is refused
      for lack of funds when not; only an empty selection is not reservable. */
  lemma DecisionExactly(rows: seq<TreeNode>, pending: nat, targets: Option<TargetAmounts>, exactOnly: bool)
    requires DistinctIds(rows)
    ensures var d, target := Decide(rows, pending, targets, exactOnly), TotalSats(targets);
            var exact := SelectByTargetAmounts(rows, targets).Ok?;
            && (d.Refuse? <==> (targets.None? && rows == []) || targets == Some(ExactDenominations([])))
            && (d.Take? ==> multiset(d.leaves) <= multiset(rows) && d.leaves != [])
            && (d.Take? && targets.None? ==> d.leaves == rows && d.pendingChange == 0)
            && (d.Take? && targets.Some? ==> Total(d.leaves) == target + d.pendingChange)
            && (d.Take? && d.pendingChange > 0 ==> !exact && Total(d.leaves[..|d.leaves| - 1]) < target)
            && (exactOnly ==> (d.Answer? <==> !exact))
            && (!exactOnly && target > 0 ==> (d.Take? <==> Total(rows) >= target))
            && (d.Answer? ==> d.result == if Total(rows) + pending >= target
                                          then WaitForPending(target, Total(rows), pending) else NotEnough)
  {
    if SelectByTargetAmounts(rows, targets).Ok? {
      DecisionWhenExact(rows, pending, targets, exactOnly);
    } else {
      DecisionWhenInexact(rows, pending, targets, exactOnly);
    }
  }

  /** A committed reservation takes distinct rows that pass the filter, worth at least the target. */
  lemma ReserveTakes(db: TreeDb, op: Op)
    requires Consistent(db) && op.ReserveOp? && Possible(db, op)
    requires ReserveCommits(db, op.order, op.id, op.targets, op.exactOnly)
    ensures var d := ReserveDecision(db, op.order, op.targets, op.exactOnly);
            && DistinctIds(d.leaves) && d.leaves != []
            && (forall n :: n in d.leaves ==>
                  n.id in db.leaves && db.leaves[n.id].node == n && FastFilter(db.leaves[n.id]))
            && Total(d.leaves) >= TotalSats(op.targets) + d.pendingChange
  {
    var rows := AvailableLeaves(db.leaves, op.order);
    AvailableLeavesAre(db.leaves, op.order);
    DecisionSound(rows, PendingBalance(PendingSum(db.reservations)), op.targets, op.exactOnly);
    DistinctSubBag(ReserveDecision(db, op.order, op.targets, op.exactOnly).leaves, rows);
  }

  lemma StepKeepsConsistent(db: TreeDb, op: Op)
    requires Consistent(db)
    ensures Consistent(Step(db, op))
  {
    forall l | l in Step(db, op).leaves ensures RowConsistent(Step(db, op), l, Step(db, op).leaves[l]) {
      assert l in db.leaves ==> RowConsistent(db, l, db.leaves[l]);
      match op {
        case SetOp(now, reported, missing, start) => RefreshKeepsRow(db, now, reported, missing, start, l);
        case UpdateOp(now, id, reserved, change) => UpdateKeepsRow(db, now, id, reserved, change, l);
        case FinalizeOp(now, id, newLeaves) => FinalizeKeepsRow(db, now, id, newLeaves, l);
        case AddOp(_, _) =>
        case ReserveOp(_, _, _, _, _, _) =>
        case CancelOp(_) =>
      }
    }
  }

  lemma UpdateKeepsRow(db: TreeDb, now: Time, id: ReservationId, reserved: seq<TreeNode>, change: seq<TreeNode>,
                       l: LeafId)
    requires l in db.leaves ==> RowConsistent(db, l, db.leaves[l])
    requires l in Update(db, now, id, reserved, change).leaves
    ensures var after := Update(db, now, id, reserved, change); RowConsistent(after, l, after.leaves[l])
  {
  }

  lemma FinalizeKeepsRow(db: TreeDb, now: Time, id: ReservationId, newLeaves: Option<seq<TreeNode>>, l: LeafId)
    requires l in db.leaves ==> RowConsistent(db, l, db.leaves[l])
    requires l in Finalize(db, now, id, newLeaves).leaves
    ensures var after := Finalize(db, now, id, newLeaves); RowConsistent(after, l, after.leaves[l])
  {
  }

  lemma RefreshKeepsRow(db: TreeDb, now: Time, reported: seq<TreeNode>, missing: seq<TreeNode>, start: Time, l: LeafId)
    requires l in db.leaves ==> RowConsistent(db, l, db.leaves[l])
    requires l in SetLeaves(db, now, reported, missing, start).leaves
    ensures var after := SetLeaves(db, now, reported, missing, start); RowConsistent(after, l, after.leaves[l])
  {
    var r := SurvivingReservation(db, now, l);
    assert r.Some? ==> l in db.leaves && r.value in db.reservations - Stale(db, now);
  }

  lemma {:induction false} RunKeepsConsistent(db: TreeDb, ops: seq<Op>)
    requires Consistent(db)
    ensures Consistent(Run(db, ops))
  {
    if ops != [] {
      RunKeepsConsistent(db, ops[..|ops| - 1]);
      StepKeepsConsistent(Run(db, ops[..|ops| - 1]), ops[|ops| - 1]);
    }
  }
}
