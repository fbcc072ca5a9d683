/** The life of a reservation over whole runs of the leaf store. */
module TreeReservations {
  import opened Prelude
  import opened LeafSelection
  import opened TreeTables
  import opened TreeRuns

  /* ---------- a reservation holds what it took ---------- */

  lemma ChosenRows(db: TreeDb, op: Op)
    requires Consistent(db) && op.ReserveOp? && Possible(db, op)
    requires ReserveCommits(db, op.order, op.id, op.targets, op.exactOnly)
    ensures forall l :: l in db.leaves ==> db.leaves[l].reservation != Some(op.id)
    ensures var chosen := ReserveDecision(db, op.order, op.targets, op.exactOnly).leaves;
            forall l :: l in Ids(chosen) ==> l in db.leaves && FastFilter(db.leaves[l])
  {
    ReserveTakes(db, op);
    forall l | l in db.leaves ensures db.leaves[l].reservation != Some(op.id) {
      assert RowConsistent(db, l, db.leaves[l]);
    }
  }

  /** A committed reservation takes only leaves that no reservation held, holds exactly those, and leaves
      every other row and reservation alone. */
  lemma ReserveHoldsExactly(db: TreeDb, op: Op)
    requires Consistent(db) && op.ReserveOp? && Possible(db, op)
    requires ReserveCommits(db, op.order, op.id, op.targets, op.exactOnly)
    ensures var chosen := ReserveDecision(db, op.order, op.targets, op.exactOnly).leaves;
            var after := Step(db, op);
            && Held(after.leaves, op.id) == Ids(chosen)
            && (forall l :: l in Ids(chosen) ==> l in db.leaves && FastFilter(db.leaves[l]))
            && after.leaves.Keys == db.leaves.Keys
            && (forall l :: l in db.leaves && l !in Ids(chosen) ==> after.leaves[l] == db.leaves[l])
            && (forall l :: l in Ids(chosen) ==> after.leaves[l] == db.leaves[l].(reservation := Some(op.id)))
            && after.reservations - {op.id} == db.reservations
  {
    var chosen := ReserveDecision(db, op.order, op.targets, op.exactOnly).leaves;
    ChosenRows(db, op);
    AssignedRows(db.leaves, Ids(chosen), op.id);
    assert Step(db, op).leaves == Assigned(db.leaves, Ids(chosen), op.id);
  }

  lemma AssignedRows(leaves: map<LeafId, LeafRow>, ids: set<LeafId>, id: ReservationId)
    requires ids <= leaves.Keys
    requires forall l :: l in leaves ==> leaves[l].reservation != Some(id)
    ensures var after := Assigned(leaves, ids, id);
            && Held(after, id) == ids && after.Keys == leaves.Keys
            && (forall l :: l in leaves && l !in ids ==> after[l] == leaves[l])
            && (forall l :: l in ids ==> after[l] == leaves[l].(reservation := Some(id)))
  {
  }

  lemma UndoAssigned(leaves: map<LeafId, LeafRow>, ids: set<LeafId>, id: ReservationId)
    requires forall l :: l in leaves ==> leaves[l].reservation != Some(id)
    requires forall l :: l in ids ==> l in leaves && leaves[l].reservation.None?
    ensures Released(Assigned(leaves, ids, id), {id}) == leaves
  {
  }

  /** Cancelling right after reserving restores the store exactly. */
  lemma ReserveThenCancel(db: TreeDb, op: Op)
    requires Consistent(db) && op.ReserveOp? && Possible(db, op)
    requires ReserveCommits(db, op.order, op.id, op.targets, op.exactOnly)
    ensures Cancel(Step(db, op), op.id) == db
  {
    ReserveHoldsExactly(db, op);
    var chosen := Ids(ReserveDecision(db, op.order, op.targets, op.exactOnly).leaves);
    forall l | l in db.leaves ensures db.leaves[l].reservation != Some(op.id) {
      assert RowConsistent(db, l, db.leaves[l]);
    }
    UndoAssigned(db.leaves, chosen, op.id);
    assert Step(db, op).leaves == Assigned(db.leaves, chosen, op.id);
  }

  /** When an exact match is not demanded, a positive request is granted exactly when the available leaves are
      worth the target. */
  lemma ReserveGrantedIff(db: TreeDb, op: Op)
    requires Consistent(db) && op.ReserveOp? && Possible(db, op)
    requires !op.exactOnly && TotalSats(op.targets) > 0
    requires FitsI64(PendingSum(db.reservations)) && op.id !in db.reservations
    ensures ReserveCommits(db, op.order, op.id, op.targets, op.exactOnly)
       <==> Total(AvailableLeaves(db.leaves, op.order)) >= TotalSats(op.targets)
  {
    var rows := AvailableLeaves(db.leaves, op.order);
    AvailableLeavesAre(db.leaves, op.order);
    TargetSelectionSound(rows, op.targets);
    var selected := SelectByTargetAmounts(rows, op.targets);
    if selected.Ok? {
      SubBagTotal(selected.value.All(), rows);
    }
  }

  /** When an exact match is demanded and the available leaves are a divisibility chain, as powers of two are, a
      request is granted exactly when it is positive and some leaves add up to the amount, or two disjoint groups of
      leaves add up to the amount and to the fee. */
  lemma ExactReserveGrantedIff(db: TreeDb, op: Op, amount: nat, fee: Option<nat>)
    requires Consistent(db) && op.ReserveOp? && Possible(db, op)
    requires op.exactOnly && op.targets == Some(AmountAndFee(amount, fee))
    requires DivisibilityChain(AvailableLeaves(db.leaves, op.order))
    requires FitsI64(PendingSum(db.reservations)) && op.id !in db.reservations
    ensures ReserveCommits(db, op.order, op.id, op.targets, op.exactOnly)
       <==> var rows := AvailableLeaves(db.leaves, op.order);
            amount > 0 && if fee.None? then SomeSubsetSums(rows, amount)
                          else fee.value > 0 && DisjointSubsetsSum(rows, amount, fee.value)
  {
    var rows := AvailableLeaves(db.leaves, op.order);
    AvailableLeavesAre(db.leaves, op.order);
    AmountAndFeeComplete(rows, amount, fee);
    DecisionExactly(rows, PendingBalance(PendingSum(db.reservations)), op.targets, true);
  }

  /* ---------- a reservation ends at most once ---------- */

  /** Reservation ids are UUIDs: no two requests of a run share one. */
  predicate FreshIds(ops: seq<Op>) {
    forall i, j :: 0 <= i < j < |ops| && ops[i].ReserveOp? && ops[j].ReserveOp? ==> ops[i].id != ops[j].id
  }

  predicate Requests(op: Op, id: ReservationId) {
    op.ReserveOp? && op.id == id
  }

  /** Only a request creates a reservation. */
  lemma OnlyRequestsCreate(db: TreeDb, op: Op, id: ReservationId)
    requires id !in db.reservations && id in Step(db, op).reservations
    ensures Requests(op, id)
  {
  }

  lemma {:induction false} LiveWasRequested(ops: seq<Op>, n: nat, id: ReservationId)
    requires n <= |ops| && id in Run(EmptyDb, ops[..n]).reservations
    ensures exists k :: 0 <= k < n && Requests(ops[k], id)
  {
    if n > 0 {
      RunOneMore(EmptyDb, ops, n - 1);
      if id in Run(EmptyDb, ops[..n - 1]).reservations {
        LiveWasRequested(ops, n - 1, id);
      } else {
        OnlyRequestsCreate(Run(EmptyDb, ops[..n - 1]), ops[n - 1], id);
      }
    }
  }

  lemma {:induction false} GoneStaysGone(ops: seq<Op>, i: nat, j: nat, id: ReservationId)
    requires i <= j <= |ops| && id !in Run(EmptyDb, ops[..i]).reservations
    requires forall k :: i <= k < j ==> !Requests(ops[k], id)
    ensures id !in Run(EmptyDb, ops[..j]).reservations
  {
    if i < j {
      GoneStaysGone(ops, i, j - 1, id);
      RunOneMore(EmptyDb, ops, j - 1);
      if id in Run(EmptyDb, ops[..j]).reservations {
        OnlyRequestsCreate(Run(EmptyDb, ops[..j - 1]), ops[j - 1], id);
      }
    }
  }

  /** Once a reservation has ended (by whatever step) it never lives again: cancelling or finalizing it
      changes nothing and updating it fails, at every later point of the run. */
  lemma EndsAtMostOnce(ops: seq<Op>, i: nat, j: nat, id: ReservationId)
    requires i < j <= |ops| && FreshIds(ops)
    requires id in Run(EmptyDb, ops[..i]).reservations && id !in Run(EmptyDb, ops[..i + 1]).reservations
    ensures var later := Run(EmptyDb, ops[..j]);
            && id !in later.reservations
            && Cancel(later, id) == later
            && (forall now, nodes :: Finalize(later, now, id, nodes) == later)
            && (forall reserved, change :: !UpdateCommits(later, id, reserved, change))
  {
    LiveWasRequested(ops, i, id);
    var k :| 0 <= k < i && Requests(ops[k], id);
    forall m | i + 1 <= m < j ensures !Requests(ops[m], id) {}
    GoneStaysGone(ops, i + 1, j, id);
  }

  /* ---------- swap reservations and refreshes ---------- */

  /** The leaves an operation writes rows for; refreshes excepted. */
  function WrittenBy(op: Op): set<LeafId> {
    match op
    case AddOp(_, nodes) => Ids(nodes)
    case UpdateOp(_, _, reserved, change) => Ids(reserved) + Ids(change)
    case FinalizeOp(_, _, Some(nodes)) => Ids(nodes)
    case _ => {}
  }

  predicate Closes(op: Op, id: ReservationId) {
    (op.CancelOp? || op.FinalizeOp?) && op.id == id
  }

  /** A refresh drops only payment reservations that outlived the timeout. */
  lemma TimeoutDropsOnlyOldPayments(db: TreeDb, op: Op, id: ReservationId)
    requires op.SetOp? && id in db.reservations
    ensures id !in Step(db, op).reservations ==>
              && db.reservations[id].purpose == Payment
              && db.reservations[id].createdAt < op.now - RESERVATION_TIMEOUT_MS
              && Held(Step(db, op).leaves, id) == {}
    ensures id in Step(db, op).reservations ==>
              Step(db, op).reservations[id] == db.reservations[id]
    ensures !HasActiveSwap(Step(db, op)) || Step(db, op) == db
  {
    var after := Step(db, op);
    if RefreshCommits(db, op.start, op.reported, op.missing) {
      assert db.reservations[id].purpose != Swap;
      forall l | l in Held(after.leaves, id) ensures id !in Stale(db, op.now) {
        assert SurvivingReservation(db, op.now, l) == Some(id);
      }
    }
  }

  /** A committed refresh drops exactly the reservations past the timeout. The leaves they held stay, free; those of
      the others stay held. */
  lemma TimeoutExactly(db: TreeDb, op: Op, id: ReservationId)
    requires op.SetOp? && RefreshCommits(db, op.start, op.reported, op.missing) && id in db.reservations
    ensures var after := Step(db, op);
            && (id in after.reservations <==> op.now <= db.reservations[id].createdAt + RESERVATION_TIMEOUT_MS)
            && (forall l :: l in Held(db.leaves, id) ==>
                  && l in after.leaves
                  && after.leaves[l].reservation == if id in after.reservations then Some(id) else None)
            && Held(after.leaves, id) <= Held(db.leaves, id)
  {
    var after := Step(db, op);
    forall l | l in Held(db.leaves, id)
      ensures l in after.leaves
      ensures after.leaves[l].reservation == if id in after.reservations then Some(id) else None
    {
      assert l in KeptByRefresh(db, op.start);
      assert after.leaves[l].reservation == SurvivingReservation(db, op.now, l);
    }
    forall l | l in Held(after.leaves, id) ensures l in Held(db.leaves, id) {
      assert SurvivingReservation(db, op.now, l) == Some(id);
    }
  }

  /** When exactly a reservation times out: in a refresh that commits, past the timeout. In particular not while any
      swap reservation lives, since no refresh commits then. */
  lemma TimesOutIff(db: TreeDb, op: Op, id: ReservationId)
    requires op.SetOp? && id in db.reservations
    ensures id !in Step(db, op).reservations
       <==> && RefreshCommits(db, op.start, op.reported, op.missing)
            && op.now > db.reservations[id].createdAt + RESERVATION_TIMEOUT_MS
    ensures HasActiveSwap(db) ==> id in Step(db, op).reservations
  {
    if RefreshCommits(db, op.start, op.reported, op.missing) {
      TimeoutExactly(db, op, id);
    }
  }

  lemma StepUnderSwap(db: TreeDb, op: Op, s: ReservationId)
    requires s in db.reservations && db.reservations[s].purpose == Swap && !Closes(op, s) && !Requests(op, s)
    ensures s in Step(db, op).reservations && Step(db, op).reservations[s].purpose == Swap
    ensures op.SetOp? ==> Step(db, op) == db
  {
  }

  lemma {:induction false} SwapLivesOn(db: TreeDb, ops: seq<Op>, n: nat, s: ReservationId)
    requires s in db.reservations && db.reservations[s].purpose == Swap && n <= |ops|
    requires forall op :: op in ops ==> !Closes(op, s) && !Requests(op, s)
    ensures s in Run(db, ops[..n]).reservations && Run(db, ops[..n]).reservations[s].purpose == Swap
  {
    if n == 0 {
      assert ops[..0] == [];
    } else {
      SwapLivesOn(db, ops, n - 1, s);
      RunOneMore(db, ops, n - 1);
      assert ops[n - 1] in ops;
      StepUnderSwap(Run(db, ops[..n - 1]), ops[n - 1], s);
    }
  }

  /** Until a live swap reservation is finalized or cancelled it never times out, and no refresh,
      however old or recent, changes anything. */
  lemma SwapBlocksRefreshes(db: TreeDb, ops: seq<Op>, s: ReservationId)
    requires s in db.reservations && db.reservations[s].purpose == Swap
    requires forall op :: op in ops ==> !Closes(op, s) && !Requests(op, s)
    ensures s in Run(db, ops).reservations && Run(db, ops).reservations[s].purpose == Swap
    ensures forall i :: 0 <= i < |ops| && ops[i].SetOp? ==> Run(db, ops[..i + 1]) == Run(db, ops[..i])
  {
    SwapLivesOn(db, ops, |ops|, s);
    assert ops[..|ops|] == ops;
    forall i | 0 <= i < |ops| && ops[i].SetOp? ensures Run(db, ops[..i + 1]) == Run(db, ops[..i]) {
      SwapLivesOn(db, ops, i, s);
      RunOneMore(db, ops, i);
      assert ops[i] in ops;
      StepUnderSwap(Run(db, ops[..i]), ops[i], s);
    }
  }

  lemma RowUnderSwap(db: TreeDb, op: Op, s: ReservationId, l: LeafId)
    requires s in db.reservations && db.reservations[s].purpose == Swap && l in Held(db.leaves, s)
    requires Consistent(db) && Possible(db, op)
    requires !Closes(op, s) && !Requests(op, s) && !(op.UpdateOp? && op.id == s) && l !in WrittenBy(op)
    ensures l in Step(db, op).leaves && Step(db, op).leaves[l] == db.leaves[l]
  {
    if op.ReserveOp? && ReserveCommits(db, op.order, op.id, op.targets, op.exactOnly) {
      ReserveHoldsExactly(db, op);
    }
  }

  /** A row held by a live swap stays as it is until the swap is finalized, cancelled or updated,
      unless some operation writes that very leaf. */
  lemma {:induction false} SwapShieldsItsRows(db: TreeDb, ops: seq<Op>, s: ReservationId, l: LeafId)
    requires Consistent(db) && PossibleRun(db, ops)
    requires s in db.reservations && db.reservations[s].purpose == Swap && l in Held(db.leaves, s)
    requires forall op :: op in ops ==>
               !Closes(op, s) && !Requests(op, s) && !(op.UpdateOp? && op.id == s) && l !in WrittenBy(op)
    ensures l in Run(db, ops).leaves && Run(db, ops).leaves[l] == db.leaves[l]
  {
    if ops != [] {
      var prefix := ops[..|ops| - 1];
      PossiblePrefix(db, ops);
      SwapShieldsItsRows(db, prefix, s, l);
      SwapBlocksRefreshes(db, prefix, s);
      RunKeepsConsistent(db, prefix);
      RowUnderSwap(Run(db, prefix), ops[|ops| - 1], s, l);
    }
  }

  /* ---------- completed swaps ---------- */

  /** A committed finalize of a swap with its new leaves: the only operation that sets the completion time. */
  predicate Stamps(db: TreeDb, op: Op) {
    && op.FinalizeOp? && op.id in db.reservations && db.reservations[op.id].purpose == Swap
    && op.newLeaves.Some? && DistinctIds(op.newLeaves.value)
  }

  lemma OnlyStampsComplete(db: TreeDb, op: Op)
    ensures Step(db, op).lastCompletedAt == if Stamps(db, op) then Some(op.now) else db.lastCompletedAt
  {
  }

  /** No stamp of the run goes back before time t. */
  ghost predicate StampsFrom(db: TreeDb, ops: seq<Op>, t: Time) {
    forall i :: 0 <= i < |ops| && Stamps(Run(db, ops[..i]), ops[i]) ==> ops[i].now >= t
  }

  lemma {:induction false} CompletionStays(db: TreeDb, ops: seq<Op>, n: nat, t: Time)
    requires db.lastCompletedAt.Some? && db.lastCompletedAt.value >= t && n <= |ops| && StampsFrom(db, ops, t)
    ensures Run(db, ops[..n]).lastCompletedAt.Some? && Run(db, ops[..n]).lastCompletedAt.value >= t
  {
    if n == 0 {
      assert ops[..0] == [];
    } else {
      CompletionStays(db, ops, n - 1, t);
      RunOneMore(db, ops, n - 1);
      OnlyStampsComplete(Run(db, ops[..n - 1]), ops[n - 1]);
    }
  }

  predicate CompletedFrom(db: TreeDb, t: Time) {
    db.lastCompletedAt.Some? && db.lastCompletedAt.value >= t
  }

  /** The completion time stays at or after t for the whole run if and only if no stamp goes back before t. */
  lemma CompletionStaysIff(db: TreeDb, ops: seq<Op>, t: Time)
    requires CompletedFrom(db, t)
    ensures StampsFrom(db, ops, t) <==> forall n :: 0 <= n <= |ops| ==> CompletedFrom(Run(db, ops[..n]), t)
  {
    if StampsFrom(db, ops, t) {
      forall n | 0 <= n <= |ops| ensures CompletedFrom(Run(db, ops[..n]), t) {
        CompletionStays(db, ops, n, t);
      }
    }
    if forall n :: 0 <= n <= |ops| ==> CompletedFrom(Run(db, ops[..n]), t) {
      forall i | 0 <= i < |ops| && Stamps(Run(db, ops[..i]), ops[i]) ensures ops[i].now >= t {
        RunOneMore(db, ops, i);
        OnlyStampsComplete(Run(db, ops[..i]), ops[i]);
        assert CompletedFrom(Run(db, ops[..i + 1]), t);
      }
    }
  }

  lemma BlockedRefreshIsIdle(db: TreeDb, op: Op)
    requires op.SetOp? && db.lastCompletedAt.Some? && db.lastCompletedAt.value >= op.start
    ensures Step(db, op) == db
  {
  }

  /** Once a swap has been finalized with its new leaves at time t, no refresh that started at or before t is ever
      applied, as long as no later swap sets the completion time back before t. */
  lemma CompletedSwapBlocksOlderRefreshes(db: TreeDb, done: Op, ops: seq<Op>)
    requires Stamps(db, done) && StampsFrom(Step(db, done), ops, done.now)
    ensures forall i :: 0 <= i < |ops| && ops[i].SetOp? && ops[i].start <= done.now ==>
              Run(Step(db, done), ops[..i + 1]) == Run(Step(db, done), ops[..i])
  {
    var after := Step(db, done);
    OnlyStampsComplete(db, done);
    forall i | 0 <= i < |ops| && ops[i].SetOp? && ops[i].start <= done.now
      ensures Run(after, ops[..i + 1]) == Run(after, ops[..i])
    {
      CompletionStays(after, ops, i, done.now);
      BlockedRefreshIsIdle(Run(after, ops[..i]), ops[i]);
      RunOneMore(after, ops, i);
    }
  }

  /* ---------- updating a reservation ---------- */

  /** A committed update replaces what the reservation holds by exactly the reserved leaves, keeps its purpose and
      age, clears its pending change, and stores the change as leaves it does not hold. */
  lemma UpdateHoldsExactly(db: TreeDb, op: Op)
    requires op.UpdateOp? && UpdateCommits(db, op.id, op.reserved, op.change)
    ensures var after := Step(db, op);
            && Held(after.leaves, op.id) == Ids(op.reserved)
            && after.reservations.Keys == db.reservations.Keys
            && after.reservations[op.id].purpose == db.reservations[op.id].purpose
            && after.reservations[op.id].createdAt == db.reservations[op.id].createdAt
            && after.reservations[op.id].pendingChange == 0
            && (forall l :: l in Ids(op.change) - Ids(op.reserved) ==>
                  l in after.leaves && after.leaves[l].node in op.change
                  && after.leaves[l].reservation != Some(op.id))
            && (forall l :: l in Held(db.leaves, op.id) && l !in WrittenBy(op) ==> l !in after.leaves)
  {
    UpdatedRows(db.leaves - Held(db.leaves, op.id), op.now, op.id, ById(op.reserved), ById(op.change));
  }

  lemma UpdatedRows(kept: map<LeafId, LeafRow>, now: Time, id: ReservationId,
                    taken: map<LeafId, TreeNode>, freed: map<LeafId, TreeNode>)
    requires forall l :: l in kept ==> kept[l].reservation != Some(id)
    ensures var after := map l | l in kept.Keys + taken.Keys + freed.Keys ::
                           if l in taken then Written(taken[l], false, Some(id), now)
                           else if l in freed then Written(freed[l], false, ReservationOf(kept, l), now)
                           else kept[l];
            && Held(after, id) == taken.Keys
            && (forall l :: l in freed.Keys - taken.Keys ==>
                  l in after && after[l].node == freed[l] && after[l].reservation != Some(id))
  {
  }
}
