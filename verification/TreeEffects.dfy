/** What each operation of the leaf store does: the tables after it against those before, row by row and column by
    column, without the functions that update them (crates/spark-postgres/src/tree_store.rs). */
module TreeEffects {
  import opened Prelude
  import opened LeafSelection
  import opened TreeTables
  import opened TreeRuns
  import opened TreeSpent
  import opened TreeValue

  /** A row written from `node`: column and node agree; missing flag, reservation and time as given. */
  predicate Stores(row: LeafRow, node: TreeNode, missing: bool, reservation: Option<ReservationId>, now: Time) {
    && row.node == node && row.status == StatusText(node.status) && row.missing == missing
    && row.reservation == reservation && row.addedAt == now
  }

  function Holder(db: TreeDb, l: LeafId): Option<ReservationId> {
    if l in db.leaves then db.leaves[l].reservation else None
  }

  lemma ByIdOf(nodes: seq<TreeNode>, n: TreeNode)
    requires DistinctIds(nodes) && n in nodes
    ensures n.id in ById(nodes) && ById(nodes)[n.id] == n
  {
    var m := ById(nodes)[n.id];
    var i :| 0 <= i < |nodes| && nodes[i] == n;
    var j :| 0 <= j < |nodes| && nodes[j] == m;
    assert i == j;
  }

  /* ---------- add_leaves ---------- */

  /** Adding stores each leaf as reported by all operators, keeps the reservation its row had, clears its marker and
      touches nothing else; a repeated id rolls everything back. */
  lemma AddEffect(db: TreeDb, op: Op)
    requires op.AddOp?
    ensures !DistinctIds(op.nodes) ==> Step(db, op) == db
    ensures DistinctIds(op.nodes) ==>
              var after := Step(db, op);
              && after.leaves.Keys == db.leaves.Keys + Ids(op.nodes)
              && (forall n :: n in op.nodes ==> Stores(after.leaves[n.id], n, false, Holder(db, n.id), op.now))
              && (forall l :: l in db.leaves && l !in Ids(op.nodes) ==> after.leaves[l] == db.leaves[l])
              && (forall x :: x in after.spent <==> x in db.spent && x !in Ids(op.nodes))
              && (forall x :: x in after.spent ==> after.spent[x] == db.spent[x])
              && after.reservations == db.reservations && after.lastCompletedAt == db.lastCompletedAt
  {
    if DistinctIds(op.nodes) {
      forall n | n in op.nodes
        ensures n.id in Step(db, op).leaves
        ensures Stores(Step(db, op).leaves[n.id], n, false, Holder(db, n.id), op.now)
      {
        ByIdOf(op.nodes, n);
      }
    }
  }

  /* ---------- set_leaves ---------- */

  /** A refresh is turned away while a swap reservation lives, or when a swap completed at or after its start. */
  predicate TurnedAway(db: TreeDb, start: Time) {
    || (exists r :: r in db.reservations && db.reservations[r].purpose == Swap)
    || (db.lastCompletedAt.Some? && db.lastCompletedAt.value >= start)
  }

  /** Spent at or after the start of the refresh. */
  predicate SpentSince(db: TreeDb, start: Time, l: LeafId) { l in db.spent && db.spent[l] >= start }

  /** No leaf that counts is listed twice. */
  predicate ListedOnce(db: TreeDb, start: Time, nodes: seq<TreeNode>) {
    forall i, j :: 0 <= i < j < |nodes| && !SpentSince(db, start, nodes[i].id) ==> nodes[i].id != nodes[j].id
  }

  /** The reservation of a row after the reservations made more than 300 seconds ago are dropped. */
  function HolderAfterTimeout(db: TreeDb, now: Time, l: LeafId): Option<ReservationId> {
    var r := Holder(db, l);
    if r.Some? && r.value in db.reservations && db.reservations[r.value].createdAt < now - 300_000 then None else r
  }

  lemma {:induction false} WithoutListsOnce(nodes: seq<TreeNode>, skip: set<LeafId>)
    ensures DistinctIds(Without(nodes, skip))
       <==> forall i, j :: 0 <= i < j < |nodes| && nodes[i].id !in skip ==> nodes[i].id != nodes[j].id
  {
    if nodes != [] {
      var head, rest := nodes[0], nodes[1..];
      var kept := Without(rest, skip);
      WithoutListsOnce(rest, skip);
      WithoutMembers(rest, skip);
      if head.id in skip {
        assert Without(nodes, skip) == kept;
        OnceTail(nodes, skip);
      } else {
        HeadOnce(head, kept);
        OnceTail(nodes, skip);
      }
    }
  }

  lemma HeadOnce(head: TreeNode, kept: seq<TreeNode>)
    ensures DistinctIds([head] + kept) <==> DistinctIds(kept) && forall n :: n in kept ==> n.id != head.id
  {
    var s := [head] + kept;
    if DistinctIds(s) {
      forall i, j | 0 <= i < j < |kept| ensures kept[i].id != kept[j].id {
        assert kept[i] == s[i + 1] && kept[j] == s[j + 1];
      }
      forall n | n in kept ensures n.id != head.id {
        var j :| 0 <= j < |kept| && kept[j] == n;
        assert s[0] == head && s[j + 1] == n;
      }
    }
  }

  lemma OnceTail(nodes: seq<TreeNode>, skip: set<LeafId>)
    requires nodes != []
    ensures (forall i, j :: 0 <= i < j < |nodes| && nodes[i].id !in skip ==> nodes[i].id != nodes[j].id)
       <==> && (forall i, j :: 0 <= i < j < |nodes[1..]| && nodes[1..][i].id !in skip ==>
                  nodes[1..][i].id != nodes[1..][j].id)
            && (nodes[0].id !in skip ==> forall n :: n in nodes[1..] ==> n.id != nodes[0].id)
  {
    var rest := nodes[1..];
    assert forall i :: 0 <= i < |rest| ==> rest[i] == nodes[i + 1];
    assert forall i :: 1 <= i < |nodes| ==> nodes[i] == rest[i - 1];
  }

  /** When a refresh changes anything: it is not turned away and lists no leaf that counts twice. */
  lemma RefreshApplies(db: TreeDb, op: Op)
    requires op.SetOp?
    ensures RefreshCommits(db, op.start, op.reported, op.missing)
       <==> && !TurnedAway(db, op.start)
            && ListedOnce(db, op.start, op.reported) && ListedOnce(db, op.start, op.missing)
    ensures !RefreshCommits(db, op.start, op.reported, op.missing) ==> Step(db, op) == db
  {
    var recent := RecentlySpent(db, op.start);
    forall l ensures l in recent <==> SpentSince(db, op.start, l) {}
    WithoutListsOnce(op.reported, recent);
    WithoutListsOnce(op.missing, recent);
  }

  lemma ListedNode(nodes: seq<TreeNode>, skip: set<LeafId>, n: TreeNode)
    requires DistinctIds(Without(nodes, skip)) && n in nodes && n.id !in skip
    ensures n.id in ById(Without(nodes, skip)) && ById(Without(nodes, skip))[n.id] == n
  {
    WithoutMembers(nodes, skip);
    ByIdOf(Without(nodes, skip), n);
  }

  /** What a committed refresh writes: a leaf that only some operators reported is stored as missing, with the node
      listed, unless it was spent since the start. */
  lemma RefreshWritesMissing(db: TreeDb, op: Op, n: TreeNode)
    requires op.SetOp? && !TurnedAway(db, op.start)
    requires ListedOnce(db, op.start, op.reported) && ListedOnce(db, op.start, op.missing)
    requires n in op.missing && !SpentSince(db, op.start, n.id)
    ensures n.id in Step(db, op).leaves
    ensures Stores(Step(db, op).leaves[n.id], n, true, HolderAfterTimeout(db, op.now, n.id), op.now)
  {
    RefreshApplies(db, op);
    ListedNode(op.missing, RecentlySpent(db, op.start), n);
  }

  /** The other leaves that it lists are stored as not missing. */
  lemma RefreshWritesReported(db: TreeDb, op: Op, n: TreeNode)
    requires op.SetOp? && !TurnedAway(db, op.start)
    requires ListedOnce(db, op.start, op.reported) && ListedOnce(db, op.start, op.missing)
    requires n in op.reported && n.id !in Ids(op.missing) && !SpentSince(db, op.start, n.id)
    ensures n.id in Step(db, op).leaves
    ensures Stores(Step(db, op).leaves[n.id], n, false, HolderAfterTimeout(db, op.now, n.id), op.now)
  {
    RefreshApplies(db, op);
    IdsWithout(op.missing, RecentlySpent(db, op.start));
    ListedNode(op.reported, RecentlySpent(db, op.start), n);
  }

  /** What a committed refresh keeps: rows it does not write stay, with all their columns but a timed-out reservation,
      if they are reserved or were added since the start; all other unlisted rows go. */
  lemma RefreshKeeps(db: TreeDb, op: Op, l: LeafId)
    requires op.SetOp? && !TurnedAway(db, op.start)
    requires ListedOnce(db, op.start, op.reported) && ListedOnce(db, op.start, op.missing)
    requires l !in Ids(op.reported) + Ids(op.missing) || SpentSince(db, op.start, l)
    ensures l in Step(db, op).leaves
       <==> l in db.leaves && (db.leaves[l].reservation.Some? || db.leaves[l].addedAt >= op.start)
    ensures l in Step(db, op).leaves ==>
              Step(db, op).leaves[l] == db.leaves[l].(reservation := HolderAfterTimeout(db, op.now, l))
  {
    RefreshApplies(db, op);
    var recent := RecentlySpent(db, op.start);
    IdsWithout(op.reported, recent);
    IdsWithout(op.missing, recent);
  }

  /** The other tables after a committed refresh: reservations past 300 seconds and markers more than 300 seconds older
      than the start are gone. */
  lemma RefreshTables(db: TreeDb, op: Op)
    requires op.SetOp? && !TurnedAway(db, op.start)
    requires ListedOnce(db, op.start, op.reported) && ListedOnce(db, op.start, op.missing)
    ensures var after := Step(db, op);
            && (forall r :: r in after.reservations <==>
                  r in db.reservations && db.reservations[r].createdAt >= op.now - 300_000)
            && (forall r :: r in after.reservations ==> after.reservations[r] == db.reservations[r])
            && (forall x :: x in after.spent <==> x in db.spent && db.spent[x] >= op.start - 300_000)
            && (forall x :: x in after.spent ==> after.spent[x] == db.spent[x])
            && after.lastCompletedAt == db.lastCompletedAt
  {
    RefreshApplies(db, op);
  }

  /* ---------- cancel_reservation ---------- */

  /** Cancelling frees the leaves of the reservation and removes it, no more; an unknown id changes nothing. */
  lemma CancelEffect(db: TreeDb, op: Op)
    requires op.CancelOp?
    ensures op.id !in db.reservations ==> Step(db, op) == db
    ensures op.id in db.reservations ==>
              var after := Step(db, op);
              && after.leaves.Keys == db.leaves.Keys
              && (forall l :: l in db.leaves ==>
                    after.leaves[l] == if db.leaves[l].reservation == Some(op.id)
                                       then db.leaves[l].(reservation := None) else db.leaves[l])
              && (forall r :: r in after.reservations <==> r in db.reservations && r != op.id)
              && (forall r :: r in after.reservations ==> after.reservations[r] == db.reservations[r])
              && after.spent == db.spent && after.lastCompletedAt == db.lastCompletedAt
  {
  }

  /* ---------- finalize_reservation ---------- */

  /** Finalizing removes the held leaves and leaves a marker on each, drops the reservation, stores the new leaves as
      reported and free unless another reservation holds them, and stamps a swap that brings new leaves. */
  lemma FinalizeEffect(db: TreeDb, op: Op)
    requires op.FinalizeOp?
    ensures op.id !in db.reservations || (op.newLeaves.Some? && !DistinctIds(op.newLeaves.value)) ==> Step(db, op) == db
    ensures op.id in db.reservations && (op.newLeaves.Some? ==> DistinctIds(op.newLeaves.value)) ==>
              var after := Step(db, op);
              var brought := if op.newLeaves.Some? then op.newLeaves.value else [];
              && (forall n :: n in brought ==>
                    n.id in after.leaves
                    && Stores(after.leaves[n.id], n, false,
                              if Holder(db, n.id) == Some(op.id) then None else Holder(db, n.id), op.now))
              && (forall l :: l !in Ids(brought) ==>
                    (l in after.leaves <==> l in db.leaves && db.leaves[l].reservation != Some(op.id))
                    && (l in after.leaves ==> after.leaves[l] == db.leaves[l]))
  {
    if op.id in db.reservations && (op.newLeaves.Some? ==> DistinctIds(op.newLeaves.value)) && op.newLeaves.Some? {
      forall n | n in op.newLeaves.value
        ensures n.id in ById(op.newLeaves.value) && ById(op.newLeaves.value)[n.id] == n
      {
        ByIdOf(op.newLeaves.value, n);
      }
    }
  }

  lemma FinalizeTables(db: TreeDb, op: Op)
    requires op.FinalizeOp? && op.id in db.reservations
    requires op.newLeaves.Some? ==> DistinctIds(op.newLeaves.value)
    ensures var after := Step(db, op);
            && (forall r :: r in after.reservations <==> r in db.reservations && r != op.id)
            && (forall r :: r in after.reservations ==> after.reservations[r] == db.reservations[r])
            && (forall x :: x in after.spent <==> x in db.spent || Holder(db, x) == Some(op.id))
            && (forall x :: x in after.spent ==> after.spent[x] == if x in db.spent then db.spent[x] else op.now)
            && after.lastCompletedAt == if db.reservations[op.id].purpose == Swap && op.newLeaves.Some?
                                        then Some(op.now) else db.lastCompletedAt
  {
  }

  /* ---------- update_reservation ---------- */

  /** Updating consumes the held leaves, leaves a marker on each, stores the reserved leaves as held, the change as it
      was held before (free if it was not, or was held by this reservation), and clears the pending change. */
  lemma UpdateEffect(db: TreeDb, op: Op)
    requires op.UpdateOp?
    ensures op.id !in db.reservations || !DistinctIds(op.reserved) || !DistinctIds(op.change) ==> Step(db, op) == db
    ensures op.id in db.reservations && DistinctIds(op.reserved) && DistinctIds(op.change) ==>
              var after := Step(db, op);
              && (forall n :: n in op.reserved ==>
                    n.id in after.leaves && Stores(after.leaves[n.id], n, false, Some(op.id), op.now))
              && (forall n :: n in op.change && n.id !in Ids(op.reserved) ==>
                    n.id in after.leaves
                    && Stores(after.leaves[n.id], n, false,
                              if Holder(db, n.id) == Some(op.id) then None else Holder(db, n.id), op.now))
              && (forall l :: l !in Ids(op.reserved) + Ids(op.change) ==>
                    (l in after.leaves <==> l in db.leaves && db.leaves[l].reservation != Some(op.id))
                    && (l in after.leaves ==> after.leaves[l] == db.leaves[l]))
  {
    if op.id in db.reservations && DistinctIds(op.reserved) && DistinctIds(op.change) {
      forall n | n in op.reserved ensures n.id in ById(op.reserved) && ById(op.reserved)[n.id] == n {
        ByIdOf(op.reserved, n);
      }
      forall n | n in op.change ensures n.id in ById(op.change) && ById(op.change)[n.id] == n {
        ByIdOf(op.change, n);
      }
    }
  }

  lemma UpdateTables(db: TreeDb, op: Op)
    requires op.UpdateOp? && op.id in db.reservations && DistinctIds(op.reserved) && DistinctIds(op.change)
    ensures var after := Step(db, op);
            && after.reservations.Keys == db.reservations.Keys
            && (forall r :: r in db.reservations && r != op.id ==> after.reservations[r] == db.reservations[r])
            && after.reservations[op.id]
               == ReservationRow(db.reservations[op.id].purpose, 0, db.reservations[op.id].createdAt)
            && (forall x :: x in after.spent <==> x in db.spent || Holder(db, x) == Some(op.id))
            && (forall x :: x in after.spent ==> after.spent[x] == if x in db.spent then db.spent[x] else op.now)
            && after.lastCompletedAt == db.lastCompletedAt
  {
  }

  /* ---------- try_reserve_leaves ---------- */

  /** A surplus as the signed column stores it. */
  function Stored(surplus: nat): int {
    if surplus <= 0x7FFF_FFFF_FFFF_FFFF then surplus
    else (surplus + 0x8000_0000_0000_0000) % 0x1_0000_0000_0000_0000 - 0x8000_0000_0000_0000
  }

  /** The amount by which what was taken exceeds what was asked for. */
  function Surplus(taken: seq<TreeNode>, targets: Option<TargetAmounts>): int {
    if targets.None? then 0 else Total(taken) - TotalSats(targets)
  }

  lemma StoredAs(surplus: nat)
    ensures AsI64(surplus) == Stored(surplus)
  {
  }

  lemma SurplusIsPending(rows: seq<TreeNode>, pending: nat, targets: Option<TargetAmounts>, exactOnly: bool)
    requires DistinctIds(rows) && Decide(rows, pending, targets, exactOnly).Take?
    ensures var d := Decide(rows, pending, targets, exactOnly); d.pendingChange == Surplus(d.leaves, targets)
  {
    DecisionExactly(rows, pending, targets, exactOnly);
  }

  lemma RefusedIsIdle(db: TreeDb, op: Op)
    requires op.ReserveOp? && !ReserveCommits(db, op.order, op.id, op.targets, op.exactOnly)
    ensures Step(db, op) == db
  {
  }

  /** A granted request records its purpose, its time and the surplus as pending change, and leaves the other
      reservations, the markers and the completion time alone. */
  lemma ReserveRecords(db: TreeDb, op: Op)
    requires Consistent(db) && op.ReserveOp? && Possible(db, op)
    requires ReserveCommits(db, op.order, op.id, op.targets, op.exactOnly)
    ensures var after, taken := Step(db, op), ReserveDecision(db, op.order, op.targets, op.exactOnly).leaves;
            && op.id !in db.reservations && Surplus(taken, op.targets) >= 0
            && after.reservations
               == db.reservations[op.id := ReservationRow(op.purpose, Stored(Surplus(taken, op.targets)), op.now)]
            && after.spent == db.spent && after.lastCompletedAt == db.lastCompletedAt
  {
    AvailableLeavesAre(db.leaves, op.order);
    SurplusIsPending(AvailableLeaves(db.leaves, op.order), PendingBalance(PendingSum(db.reservations)), op.targets,
                     op.exactOnly);
    StoredAs(ReserveDecision(db, op.order, op.targets, op.exactOnly).pendingChange);
  }

  lemma PendingOneMore(reservations: map<ReservationId, ReservationRow>, id: ReservationId, row: ReservationRow)
    requires id !in reservations
    ensures PendingSum(reservations[id := row]) == PendingSum(reservations) + row.pendingChange
  {
    var more := reservations[id := row];
    SumRemove(more.Keys, PendingAmounts(more), id);
    assert more.Keys - {id} == reservations.Keys;
    SumSame(reservations.Keys, PendingAmounts(more), PendingAmounts(reservations));
  }

  /** A granted request raises the pending balance by its surplus, so that later requests can count on it. */
  lemma ReserveRaisesPending(db: TreeDb, op: Op)
    requires Consistent(db) && op.ReserveOp? && Possible(db, op)
    requires ReserveCommits(db, op.order, op.id, op.targets, op.exactOnly)
    ensures var taken := ReserveDecision(db, op.order, op.targets, op.exactOnly).leaves;
            && Surplus(taken, op.targets) >= 0
            && PendingSum(Step(db, op).reservations)
               == PendingSum(db.reservations) + Stored(Surplus(taken, op.targets))
  {
    ReserveRecords(db, op);
    PendingOneMore(db.reservations, op.id, Step(db, op).reservations[op.id]);
  }

  /* ---------- the order of rows ---------- */

  /** Listed in the order of the rows. */
  ghost predicate InOrder(order: seq<LeafId>, nodes: seq<TreeNode>) {
    forall i, j :: 0 <= i < j < |nodes| ==> Precedes(order, nodes[i].id, nodes[j].id)
  }

  ghost predicate Precedes(order: seq<LeafId>, a: LeafId, b: LeafId) {
    exists i, j :: 0 <= i < j < |order| && order[i] == a && order[j] == b
  }

  /** One more row at the end, listed or not. */
  lemma OneMoreInOrder(order: seq<LeafId>, before: seq<TreeNode>, nodes: seq<TreeNode>)
    requires order != [] && (nodes == before || (|nodes| == |before| + 1 && nodes[..|before|] == before))
    requires |nodes| > |before| ==> nodes[|before|].id == order[|order| - 1]
    requires InOrder(order[..|order| - 1], before) && forall n :: n in before ==> n.id in order[..|order| - 1]
    ensures InOrder(order, nodes) && forall n :: n in nodes ==> n.id in order
  {
    var k := |order| - 1;
    forall i, j | 0 <= i < j < |nodes| ensures Precedes(order, nodes[i].id, nodes[j].id) {
      assert nodes[i] == before[i];
      if j < |before| {
        assert nodes[j] == before[j];
        var a, b :| 0 <= a < b < k && order[..k][a] == before[i].id && order[..k][b] == before[j].id;
        assert order[a] == nodes[i].id && order[b] == nodes[j].id;
      } else {
        assert before[i].id in order[..k];
        var a :| 0 <= a < k && order[..k][a] == before[i].id;
        assert order[a] == nodes[i].id && order[k] == nodes[j].id;
      }
    }
    forall n | n in nodes ensures n.id in order {
      var i :| 0 <= i < |nodes| && nodes[i] == n;
      if i < |before| {
        assert before[i] in before && n.id in order[..k];
      }
    }
  }

  /** The rows a request chooses from and the lists of get_leaves are in row order. */
  lemma {:induction false} ListedInOrder(db: TreeDb, order: seq<LeafId>, b: Bucket)
    requires forall l :: l in db.leaves ==> db.leaves[l].node.id == l
    ensures InOrder(order, AvailableLeaves(db.leaves, order)) && InOrder(order, InBucket(db, order, b))
    ensures forall n :: n in AvailableLeaves(db.leaves, order) ==> n.id in order
    ensures forall n :: n in InBucket(db, order, b) ==> n.id in order
  {
    if order != [] {
      var k := |order| - 1;
      ListedInOrder(db, order[..k], b);
      OneMoreInOrder(order, AvailableLeaves(db.leaves, order[..k]), AvailableLeaves(db.leaves, order));
      OneMoreInOrder(order, InBucket(db, order[..k], b), InBucket(db, order, b));
    }
  }

  /** The leaves a request may take: available in the status column, not missing, not reserved. */
  function Free(db: TreeDb): set<LeafId> {
    set l | l in db.leaves && db.leaves[l].status == "Available" && !db.leaves[l].missing
            && db.leaves[l].reservation.None?
  }

  lemma AvailableIsFree(db: TreeDb, order: seq<LeafId>)
    requires Consistent(db) && Lists(order, db.leaves)
    ensures var rows := AvailableLeaves(db.leaves, order);
            && DistinctIds(rows) && Ids(rows) == Free(db) && Total(rows) == ValueOf(db.leaves, Free(db))
  {
    var rows := AvailableLeaves(db.leaves, order);
    forall l | l in db.leaves ensures db.leaves[l].node.id == l {
      assert RowConsistent(db, l, db.leaves[l]);
    }
    AvailableLeavesAre(db.leaves, order);
    forall l | l in Free(db) ensures l in Ids(rows) {
      assert db.leaves[l].node in rows;
    }
    TotalIsValue(db.leaves, rows);
  }

  /** What a request for a positive amount is told, when it need not be matched exactly: it is granted if the free
      leaves are worth it; else it is told to wait if they are together with the pending change; else it fails. */
  lemma ReserveAnswers(db: TreeDb, op: Op)
    requires Consistent(db) && op.ReserveOp? && Possible(db, op)
    requires !op.exactOnly && TotalSats(op.targets) > 0 && op.id !in db.reservations
    requires -0x8000_0000_0000_0000 <= PendingSum(db.reservations) <= 0x7FFF_FFFF_FFFF_FFFF
    ensures var free, sum, needed := ValueOf(db.leaves, Free(db)), PendingSum(db.reservations), TotalSats(op.targets);
            var pending := if sum < 0 then 0 else sum;
            && free >= 0
            && var answer := ReserveAnswer(db, op.order, op.id, op.targets, op.exactOnly);
               if free >= needed then
                 && ReserveCommits(db, op.order, op.id, op.targets, op.exactOnly)
                 && answer == Ok(Success(ReserveDecision(db, op.order, op.targets, op.exactOnly).leaves, op.id))
               else answer == Ok(if free + pending >= needed then WaitForPending(needed, free, pending) else NotEnough)
  {
    var rows := AvailableLeaves(db.leaves, op.order);
    AvailableIsFree(db, op.order);
    DecisionExactly(rows, PendingBalance(PendingSum(db.reservations)), op.targets, op.exactOnly);
    NothingRefused(op.targets);
  }

  lemma NothingRefused(targets: Option<TargetAmounts>)
    requires TotalSats(targets) > 0
    ensures targets.Some? && targets != Some(ExactDenominations([]))
  {
  }

  /** A request that cannot be answered from the tables: the pending sum does not fit 64 bits, or the id is taken. */
  lemma ReserveFails(db: TreeDb, op: Op)
    requires op.ReserveOp?
    ensures var sum := PendingSum(db.reservations);
            var answer := ReserveAnswer(db, op.order, op.id, op.targets, op.exactOnly);
            && (sum < -0x8000_0000_0000_0000 || sum > 0x7FFF_FFFF_FFFF_FFFF ==> answer == Err(DatabaseError))
            && (answer.Ok? && answer.value.Success? <==> ReserveCommits(db, op.order, op.id, op.targets, op.exactOnly))
            && (answer.Ok? && answer.value.Success? ==> op.id !in db.reservations)
  {
  }

  /* ---------- get_leaves ---------- */

  function PurposeOf(db: TreeDb, row: LeafRow): Option<ReservationPurpose> {
    if row.reservation.Some? && row.reservation.value in db.reservations
    then Some(db.reservations[row.reservation.value].purpose) else None
  }

  predicate IsStored(db: TreeDb, n: TreeNode) { n.id in db.leaves && db.leaves[n.id].node == n }

  /** Which leaves get_leaves lists where: reserved ones by the purpose of their reservation; of the others, those in
      status Available by the missing flag, the remaining ones as not available unless they are missing. */
  lemma ListsAre(db: TreeDb, order: seq<LeafId>, n: TreeNode)
    requires Consistent(db) && Lists(order, db.leaves)
    ensures !IsStored(db, n) ==> forall b :: n !in InBucket(db, order, b)
    ensures IsStored(db, n) ==>
              var row, purpose := db.leaves[n.id], PurposeOf(db, db.leaves[n.id]);
              && (n in InBucket(db, order, PaymentBucket) <==> purpose == Some(Payment))
              && (n in InBucket(db, order, SwapBucket) <==> purpose == Some(Swap))
              && (n in InBucket(db, order, AvailableBucket) <==>
                    purpose == None && !row.missing && n.status == Available)
              && (n in InBucket(db, order, NotAvailableBucket) <==>
                    purpose == None && !row.missing && n.status != Available)
              && (n in InBucket(db, order, MissingBucket) <==>
                    purpose == None && row.missing && n.status == Available)
  {
    forall l | l in db.leaves ensures db.leaves[l].node.id == l {
      assert RowConsistent(db, l, db.leaves[l]);
    }
    forall b ensures n in InBucket(db, order, b) <==> IsStored(db, n) && BucketOf(db, db.leaves[n.id]) == b {
      InBucketAre(db, order, b);
    }
  }

  /** A leaf that only some operators reported is listed as missing and cannot be reserved. */
  lemma MissingIsNotFree(db: TreeDb, op: Op, n: TreeNode)
    requires Consistent(db) && op.SetOp? && !TurnedAway(db, op.start)
    requires ListedOnce(db, op.start, op.reported) && ListedOnce(db, op.start, op.missing)
    requires n in op.missing && !SpentSince(db, op.start, n.id) && n.status == Available
    ensures n.id !in Free(Step(db, op))
    ensures HolderAfterTimeout(db, op.now, n.id).None? ==> n.id in BucketIds(Step(db, op), MissingBucket)
  {
    RefreshWritesMissing(db, op, n);
  }
}
