/** The PostgreSQL leaf store, statement by statement (crates/spark-postgres/src/tree_store.rs).
    Each public method is one transaction: `before` is what a rollback restores. */
module TreeStore {
  import opened Prelude
  import opened LeafSelection
  import opened Tables = TreeTables

  class PostgresTreeStore {
    var leaves: map<LeafId, LeafRow>
    var reservations: map<ReservationId, ReservationRow>
    var spent: map<LeafId, Time>
    var lastCompletedAt: Option<Time>

    function Contents(): TreeDb
      reads this
    {
      TreeDb(leaves, reservations, spent, lastCompletedAt)
    }

    constructor ()
      ensures Contents() == EmptyDb
    {
      leaves, reservations, spent, lastCompletedAt := map[], map[], map[], None;
    }

    method Rollback(before: TreeDb)
      modifies this
      ensures Contents() == before
    {
      leaves, reservations, spent, lastCompletedAt :=
        before.leaves, before.reservations, before.spent, before.lastCompletedAt;
    }

    method AddLeaves(now: Time, nodes: seq<TreeNode>) returns (r: Result<(), TreeServiceError>)
      modifies this
      ensures Contents() == Tables.AddLeaves(old(Contents()), now, nodes)
      ensures r.Ok? <==> DistinctIds(nodes)
    {
      WithoutNothing(nodes, {});
      if |nodes| == 0 {
        assert leaves == Upserted(leaves, ById(nodes), false, now) && spent == spent - Ids(nodes);
        return Ok(());
      }
      var before := Contents();
      BatchRemoveSpentLeaves(Ids(nodes));
      var ok := BatchUpsertLeaves(nodes, false, {}, now);
      if !ok {
        Rollback(before);
        return Err(DatabaseError);
      }
      return Ok(());
    }

    method GetLeaves(order: seq<LeafId>) returns (r: Leaves)
      requires Lists(order, leaves)
      ensures r == Leaves(InBucket(Contents(), order, AvailableBucket),
                          InBucket(Contents(), order, NotAvailableBucket),
                          InBucket(Contents(), order, MissingBucket),
                          InBucket(Contents(), order, PaymentBucket),
                          InBucket(Contents(), order, SwapBucket))
    {
      var available, notAvailable, availableMissing: seq<TreeNode> := [], [], [];
      var forPayment, forSwap: seq<TreeNode> := [], [];
      for i := 0 to |order|
        invariant available == InBucket(Contents(), order[..i], AvailableBucket)
        invariant notAvailable == InBucket(Contents(), order[..i], NotAvailableBucket)
        invariant availableMissing == InBucket(Contents(), order[..i], MissingBucket)
        invariant forPayment == InBucket(Contents(), order[..i], PaymentBucket)
        invariant forSwap == InBucket(Contents(), order[..i], SwapBucket)
      {
        assert order[i] in order && order[i] in leaves;
        InBucketStep(Contents(), order, i, AvailableBucket);
        InBucketStep(Contents(), order, i, NotAvailableBucket);
        InBucketStep(Contents(), order, i, MissingBucket);
        InBucketStep(Contents(), order, i, PaymentBucket);
        InBucketStep(Contents(), order, i, SwapBucket);
        var row := leaves[order[i]];
        var node := row.node;
        var purpose := if row.reservation.Some? && row.reservation.value in reservations
                       then Some(reservations[row.reservation.value].purpose) else None;
        if purpose.Some? {
          match purpose.value
          case Payment => forPayment := forPayment + [node];
          case Swap => forSwap := forSwap + [node];
        } else if row.missing {
          if node.status == Available {
            availableMissing := availableMissing + [node];
          }
        } else if node.status == Available {
          available := available + [node];
        } else {
          notAvailable := notAvailable + [node];
        }
      }
      assert order[..|order|] == order;
      return Leaves(available, notAvailable, availableMissing, forPayment, forSwap);
    }

    method SetLeaves(now: Time, reported: seq<TreeNode>, missing: seq<TreeNode>, start: Time)
      returns (r: Result<(), TreeServiceError>)
      modifies this
      ensures Contents() == Tables.SetLeaves(old(Contents()), now, reported, missing, start)
      ensures r.Ok? <==>
                RefreshBlocked(old(Contents()), start) || RefreshCommits(old(Contents()), start, reported, missing)
    {
      var before := Contents();
      var hasActiveSwap := exists x :: x in reservations && reservations[x].purpose == Swap;
      var swapCompleted := lastCompletedAt.Some? && lastCompletedAt.value >= start;
      if hasActiveSwap || swapCompleted {
        return Ok(());
      }
      spent := map l | l in spent && spent[l] >= start - SPENT_MARKER_CLEANUP_THRESHOLD_MS :: spent[l];
      var spentIds := set l | l in spent && spent[l] >= start;
      assert spentIds == RecentlySpent(before, start);
      leaves := WithoutOldFree(leaves, start);
      CleanupStaleReservations(now);
      assert leaves == Released(WithoutOldFree(before.leaves, start), Stale(before, now));
      var ok := BatchUpsertLeaves(reported, false, spentIds, now);
      if ok {
        ok := BatchUpsertLeaves(missing, true, spentIds, now);
      }
      if !ok {
        Rollback(before);
        return Err(DatabaseError);
      }
      RefreshStatements(before, now, start, ById(Without(reported, spentIds)), ById(Without(missing, spentIds)));
      return Ok(());
    }

    method CancelReservation(id: ReservationId)
      modifies this
      ensures Contents() == Tables.Cancel(old(Contents()), id)
    {
      if id !in reservations {
        return;
      }
      DeleteReservations({id});
    }

    method FinalizeReservation(now: Time, id: ReservationId, newLeaves: Option<seq<TreeNode>>)
      returns (r: Result<(), TreeServiceError>)
      modifies this
      ensures Contents() == Tables.Finalize(old(Contents()), now, id, newLeaves)
      ensures r.Ok? <==> id !in old(reservations) || newLeaves.None? || DistinctIds(newLeaves.value)
    {
      var before := Contents();
      if id !in reservations {
        return Ok(());
      }
      var isSwap := reservations[id].purpose == Swap;
      var held := Held(leaves, id);
      BatchInsertSpentLeaves(held, now);
      leaves := leaves - held;
      DeleteReservations({id});
      assert leaves == before.leaves - held;
      if newLeaves.Some? {
        WithoutNothing(newLeaves.value, {});
        var ok := BatchUpsertLeaves(newLeaves.value, false, {}, now);
        if !ok {
          Rollback(before);
          return Err(DatabaseError);
        }
      } else {
        assert leaves == Upserted(leaves, map[], false, now);
      }
      if isSwap && newLeaves.Some? {
        lastCompletedAt := Some(now);
      }
      return Ok(());
    }

    method TryReserveLeaves(now: Time, order: seq<LeafId>, id: ReservationId, targets: Option<TargetAmounts>,
                            exactOnly: bool, purpose: ReservationPurpose)
      returns (r: Result<ReserveResult, TreeServiceError>)
      requires Lists(order, leaves)
      modifies this
      ensures r == ReserveAnswer(old(Contents()), order, id, targets, exactOnly)
      ensures Contents() == Tables.TryReserve(old(Contents()), now, order, id, targets, exactOnly, purpose)
    {
      var rows := AvailableLeaves(leaves, order);
      var sum := SumPending();
      if !FitsI64(sum) {
        return Err(DatabaseError);
      }
      var decision := Select(rows, PendingBalance(sum), targets, exactOnly);
      match decision
      case Refuse(e) => return Err(e);
      case Answer(a) => return Ok(a);
      case Take(chosen, pendingChange) =>
        r := CreateReservation(now, id, chosen, purpose, pendingChange);
    }

    /** The selection inside try_reserve_leaves: exact first, then a minimum amount, then the shortage answer. */
    static method Select(rows: seq<TreeNode>, pending: nat, targets: Option<TargetAmounts>, exactOnly: bool)
      returns (d: Decision)
      ensures d == Decide(rows, pending, targets, exactOnly)
    {
      var target := TotalSats(targets);
      var selected := SelectByTargetAmounts(rows, targets);
      if selected.Ok? {
        var chosen := selected.value.All();
        if chosen == [] {
          return Refuse(NonReservableLeaves);
        }
        return Take(chosen, 0);
      }
      if !exactOnly {
        var minimum := SelectByMinimumAmount(rows, target);
        if minimum.Ok? && minimum.value.Some? {
          var chosen := minimum.value.value;
          var amount := Total(chosen);
          return Take(chosen, if amount > target && target > 0 then amount - target else 0);
        }
      }
      var available := Total(rows);
      if available + pending >= target {
        return Answer(WaitForPending(target, available, pending));
      }
      return Answer(NotEnough);
    }

    method UpdateReservation(now: Time, id: ReservationId, reserved: seq<TreeNode>, change: seq<TreeNode>)
      returns (r: Result<(), TreeServiceError>)
      modifies this
      ensures Contents() == Tables.Update(old(Contents()), now, id, reserved, change)
      ensures r.Ok? <==> UpdateCommits(old(Contents()), id, reserved, change)
      ensures id !in old(reservations) ==> r == Err(ReservationNotFound)
    {
      var before := Contents();
      if id !in reservations {
        return Err(ReservationNotFound);
      }
      var held := Held(leaves, id);
      BatchInsertSpentLeaves(held, now);
      leaves := leaves - held;
      WithoutNothing(change, {});
      WithoutNothing(reserved, {});
      var ok := BatchUpsertLeaves(change, false, {}, now);
      if ok {
        ok := BatchUpsertLeaves(reserved, false, {}, now);
      }
      if !ok {
        Rollback(before);
        return Err(DatabaseError);
      }
      UpdateStatements(before.leaves - held, now, id, ById(reserved), ById(change));
      assert leaves == Upserted(Upserted(before.leaves - held, ById(change), false, now), ById(reserved), false, now);
      leaves := Assigned(leaves, Ids(reserved), id);
      reservations := reservations[id := reservations[id].(pendingChange := 0)];
      return Ok(());
    }

    /* ---------- statements shared by the transactions ---------- */

    /** One INSERT .. ON CONFLICT DO UPDATE over a batch; it fails as a whole when it would touch a row twice. */
    method BatchUpsertLeaves(nodes: seq<TreeNode>, missing: bool, skip: set<LeafId>, now: Time) returns (ok: bool)
      modifies this`leaves
      ensures ok <==> Accepted(nodes, skip)
      ensures leaves == if ok then Upserted(old(leaves), ById(Without(nodes, skip)), missing, now) else old(leaves)
    {
      var table;
      ok, table := UpsertInto(leaves, Without(nodes, skip), missing, now);
      if ok {
        leaves := table;
      }
    }

    static method UpsertInto(rows: map<LeafId, LeafRow>, nodes: seq<TreeNode>, missing: bool, now: Time)
      returns (ok: bool, table: map<LeafId, LeafRow>)
      ensures ok <==> DistinctIds(nodes)
      ensures ok ==> table == Upserted(rows, ById(nodes), missing, now)
    {
      var seen: set<LeafId> := {};
      table := rows;
      assert nodes[..|nodes|] == nodes;
      assert Upserted(rows, ById(nodes[..0]), missing, now) == rows;
      for i := 0 to |nodes|
        invariant DistinctIds(nodes[..i]) && seen == Ids(nodes[..i])
        invariant table == Upserted(rows, ById(nodes[..i]), missing, now)
      {
        var node := nodes[i];
        DistinctOneMore(nodes, i);
        if node.id in seen {
          return false, rows;
        }
        UpsertOneMore(rows, nodes, i, missing, now);
        table := table[node.id := Written(node, missing, ReservationOf(table, node.id), now)];
        seen := seen + {node.id};
      }
      return true, table;
    }

    method BatchInsertSpentLeaves(ids: set<LeafId>, now: Time)
      modifies this`spent
      ensures spent == Marked(old(spent), ids, now)
    {
      spent := map id | id in spent.Keys + ids :: if id in spent then spent[id] else now;
    }

    method BatchRemoveSpentLeaves(ids: set<LeafId>)
      modifies this`spent
      ensures spent == old(spent) - ids
    {
      spent := spent - ids;
    }

    method DeleteReservations(gone: set<ReservationId>)
      modifies this`reservations, this`leaves
      ensures reservations == old(reservations) - gone
      ensures leaves == Released(old(leaves), gone)
    {
      reservations := reservations - gone;
      leaves := Released(leaves, gone);
    }

    method CleanupStaleReservations(now: Time)
      modifies this`reservations, this`leaves
      ensures reservations == old(reservations) - Stale(old(Contents()), now)
      ensures leaves == Released(old(leaves), Stale(old(Contents()), now))
    {
      DeleteReservations(set x | x in reservations && reservations[x].createdAt < now - RESERVATION_TIMEOUT_MS);
    }

    method CreateReservation(now: Time, id: ReservationId, chosen: seq<TreeNode>,
                             purpose: ReservationPurpose, pendingChange: nat)
      returns (r: Result<ReserveResult, TreeServiceError>)
      modifies this`reservations, this`leaves
      ensures r == if id in old(reservations) then Err(DatabaseError) else Ok(Success(chosen, id))
      ensures Contents() == if id in old(reservations) then old(Contents())
                            else Tables.Reserve(old(Contents()), now, id, Ids(chosen), purpose, pendingChange)
    {
      if id in reservations {
        return Err(DatabaseError);
      }
      reservations := reservations[id := ReservationRow(purpose, AsI64(pendingChange), now)];
      leaves := Assigned(leaves, Ids(chosen), id);
      return Ok(Success(chosen, id));
    }

    method SumPending() returns (sum: int)
      ensures sum == PendingSum(reservations)
    {
      sum := 0;
      var todo := reservations.Keys;
      while todo != {}
        invariant todo <= reservations.Keys
        invariant sum + SumOver(todo, PendingAmounts(reservations)) == PendingSum(reservations)
      {
        var x :| x in todo;
        SumRemove(todo, PendingAmounts(reservations), x);
        sum := sum + reservations[x].pendingChange;
        todo := todo - {x};
      }
    }
  }
}
