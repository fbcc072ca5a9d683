/** The four tables of the PostgreSQL leaf store and what each committed transaction does to them
    (crates/spark-postgres/src/tree_store.rs). Every write runs under one advisory lock, so a
    transaction is one step; `now` is its start time, which need not grow from step to step. */
module TreeTables {
  import opened Prelude
  import opened LeafSelection

  type ReservationId = string

  /** Milliseconds. */
  type Time = int

  const RESERVATION_TIMEOUT_MS: Time := 300 * 1000
  const SPENT_MARKER_CLEANUP_THRESHOLD_MS: Time := 5 * 60 * 1000
  const I64_MAX: int := 0x7FFF_FFFF_FFFF_FFFF

  datatype ReservationPurpose = Payment | Swap

  /** A row of tree_leaves: `status` is the text column, `node` the stored JSON. */
  datatype LeafRow = LeafRow(
    status: string, missing: bool, reservation: Option<ReservationId>, node: TreeNode, addedAt: Time)

  datatype ReservationRow = ReservationRow(purpose: ReservationPurpose, pendingChange: int, createdAt: Time)

  datatype TreeDb = TreeDb(
    leaves: map<LeafId, LeafRow>,
    reservations: map<ReservationId, ReservationRow>,
    spent: map<LeafId, Time>,
    lastCompletedAt: Option<Time>)

  const EmptyDb := TreeDb(map[], map[], map[], None)

  datatype ReserveResult =
    | Success(leaves: seq<TreeNode>, id: ReservationId)
    | NotEnough
    | WaitForPending(needed: nat, available: nat, pending: nat)

  function StatusText(status: TreeNodeStatus): string {
    match status
    case Creating => "Creating"
    case Available => "Available"
    case FrozenByIssuer => "FrozenByIssuer"
    case TransferLocked => "TransferLocked"
    case SplitLocked => "SplitLocked"
    case Splitted => "Splitted"
    case Aggregated => "Aggregated"
    case OnChain => "OnChain"
    case Exited => "Exited"
    case AggregateLock => "AggregateLock"
    case Investigation => "Investigation"
    case Lost => "Lost"
    case Reimbursed => "Reimbursed"
    case RenewLocked => "RenewLocked"
    case ParentExited => "ParentExited"
    case Unknown => "Unknown"
  }

  predicate FitsI64(x: int) { -I64_MAX - 1 <= x <= I64_MAX }

  /** The unsigned-to-signed cast of a 64-bit amount. */
  function AsI64(x: nat): int {
    (x + I64_MAX + 1) % (2 * (I64_MAX + 1)) - (I64_MAX + 1)
  }

  /* ---------- batches ---------- */

  function ById(nodes: seq<TreeNode>): (r: map<LeafId, TreeNode>)
    ensures r.Keys == Ids(nodes)
    ensures forall id :: id in r ==> r[id].id == id && r[id] in nodes
  {
    if nodes == [] then map[]
    else
      var last := nodes[|nodes| - 1];
      assert nodes == nodes[..|nodes| - 1] + [last];
      ById(nodes[..|nodes| - 1])[last.id := last]
  }

  function Written(node: TreeNode, missing: bool, reservation: Option<ReservationId>, now: Time): LeafRow {
    LeafRow(StatusText(node.status), missing, reservation, node, now)
  }

  function ReservationOf(leaves: map<LeafId, LeafRow>, id: LeafId): Option<ReservationId> {
    if id in leaves then leaves[id].reservation else None
  }

  /** INSERT .. ON CONFLICT DO UPDATE: every column but the reservation is replaced. */
  function Upserted(leaves: map<LeafId, LeafRow>, batch: map<LeafId, TreeNode>, missing: bool, now: Time)
    : map<LeafId, LeafRow>
  {
    map id | id in leaves.Keys + batch.Keys ::
      if id in batch then Written(batch[id], missing, ReservationOf(leaves, id), now) else leaves[id]
  }

  lemma DistinctOneMore(nodes: seq<TreeNode>, i: nat)
    requires i < |nodes| && DistinctIds(nodes[..i])
    ensures Ids(nodes[..i + 1]) == Ids(nodes[..i]) + {nodes[i].id}
    ensures if nodes[i].id in Ids(nodes[..i]) then !DistinctIds(nodes) else DistinctIds(nodes[..i + 1])
  {
    var prefix := nodes[..i];
    var longer := nodes[..i + 1];
    assert longer == prefix + [nodes[i]];
    if nodes[i].id in Ids(prefix) {
      var n :| n in prefix && n.id == nodes[i].id;
      var j :| 0 <= j < i && prefix[j] == n;
      assert nodes[j].id == nodes[i].id;
    } else {
      forall p, q | 0 <= p < q < |longer| ensures longer[p].id != longer[q].id {
        assert prefix[p] in prefix && prefix[p].id in Ids(prefix);
      }
    }
  }

  lemma UpsertOne(leaves: map<LeafId, LeafRow>, batch: map<LeafId, TreeNode>, node: TreeNode, missing: bool, now: Time)
    requires node.id !in batch
    ensures var sofar := Upserted(leaves, batch, missing, now);
            Upserted(leaves, batch[node.id := node], missing, now)
            == sofar[node.id := Written(node, missing, ReservationOf(sofar, node.id), now)]
  {
  }

  lemma UpsertOneMore(leaves: map<LeafId, LeafRow>, nodes: seq<TreeNode>, i: nat, missing: bool, now: Time)
    requires i < |nodes| && nodes[i].id !in ById(nodes[..i])
    ensures var sofar := Upserted(leaves, ById(nodes[..i]), missing, now);
            Upserted(leaves, ById(nodes[..i + 1]), missing, now)
            == sofar[nodes[i].id := Written(nodes[i], missing, ReservationOf(sofar, nodes[i].id), now)]
  {
    assert nodes[..i + 1][..i] == nodes[..i];
    assert ById(nodes[..i + 1]) == ById(nodes[..i])[nodes[i].id := nodes[i]];
    UpsertOne(leaves, ById(nodes[..i]), nodes[i], missing, now);
  }

  /** ON DELETE SET NULL: the leaves of deleted reservations become free. */
  function Released(leaves: map<LeafId, LeafRow>, gone: set<ReservationId>): map<LeafId, LeafRow> {
    map id | id in leaves ::
      if leaves[id].reservation.Some? && leaves[id].reservation.value in gone
      then leaves[id].(reservation := None) else leaves[id]
  }

  function Held(leaves: map<LeafId, LeafRow>, id: ReservationId): set<LeafId> {
    set l | l in leaves && leaves[l].reservation == Some(id)
  }

  /** ON CONFLICT DO NOTHING: a leaf that already has a marker keeps its first time. */
  function Marked(spent: map<LeafId, Time>, ids: set<LeafId>, now: Time): map<LeafId, Time> {
    map id | id in spent.Keys + ids :: if id in spent then spent[id] else now
  }

  function Assigned(leaves: map<LeafId, LeafRow>, ids: set<LeafId>, id: ReservationId): map<LeafId, LeafRow> {
    map l | l in leaves :: if l in ids then leaves[l].(reservation := Some(id)) else leaves[l]
  }

  /* ---------- add_leaves ---------- */

  function AddLeaves(db: TreeDb, now: Time, nodes: seq<TreeNode>): TreeDb {
    if !DistinctIds(nodes) then db
    else db.(leaves := Upserted(db.leaves, ById(nodes), false, now), spent := db.spent - Ids(nodes))
  }

  /* ---------- set_leaves ---------- */

  predicate HasActiveSwap(db: TreeDb) {
    exists r :: r in db.reservations && db.reservations[r].purpose == Swap
  }

  predicate RefreshBlocked(db: TreeDb, start: Time) {
    HasActiveSwap(db) || (db.lastCompletedAt.Some? && db.lastCompletedAt.value >= start)
  }

  function RecentlySpent(db: TreeDb, start: Time): set<LeafId> {
    set l | l in db.spent && db.spent[l] >= start
  }

  function Stale(db: TreeDb, now: Time): set<ReservationId> {
    set r | r in db.reservations && db.reservations[r].createdAt < now - RESERVATION_TIMEOUT_MS
  }

  predicate Accepted(nodes: seq<TreeNode>, skip: set<LeafId>) {
    DistinctIds(Without(nodes, skip))
  }

  predicate RefreshCommits(db: TreeDb, start: Time, reported: seq<TreeNode>, missing: seq<TreeNode>) {
    && !RefreshBlocked(db, start)
    && Accepted(reported, RecentlySpent(db, start)) && Accepted(missing, RecentlySpent(db, start))
  }

  /** Rows the refresh keeps although the operators did not report them. */
  function KeptByRefresh(db: TreeDb, start: Time): set<LeafId> {
    set l | l in db.leaves && (db.leaves[l].reservation.Some? || db.leaves[l].addedAt >= start)
  }

  /** The reservation a row still has once the stale reservations are gone. */
  function SurvivingReservation(db: TreeDb, now: Time, l: LeafId): Option<ReservationId> {
    var r := ReservationOf(db.leaves, l);
    if r.Some? && r.value in Stale(db, now) then None else r
  }

  /** The rows after a refresh that brings `good` from the operators and `bad` from only some of them. */
  function RefreshedRows(db: TreeDb, now: Time, start: Time,
                         good: map<LeafId, TreeNode>, bad: map<LeafId, TreeNode>): map<LeafId, LeafRow>
  {
    map l | l in KeptByRefresh(db, start) + good.Keys + bad.Keys ::
      if l in bad then Written(bad[l], true, SurvivingReservation(db, now, l), now)
      else if l in good then Written(good[l], false, SurvivingReservation(db, now, l), now)
      else db.leaves[l].(reservation := SurvivingReservation(db, now, l))
  }

  /** A committed refresh as one set expression. */
  function Refreshed(db: TreeDb, now: Time, start: Time, reported: seq<TreeNode>, missing: seq<TreeNode>): TreeDb {
    var recent := RecentlySpent(db, start);
    TreeDb(
      RefreshedRows(db, now, start, ById(Without(reported, recent)), ById(Without(missing, recent))),
      db.reservations - Stale(db, now),
      map l | l in db.spent && db.spent[l] >= start - SPENT_MARKER_CLEANUP_THRESHOLD_MS :: db.spent[l],
      db.lastCompletedAt)
  }

  function SetLeaves(db: TreeDb, now: Time, reported: seq<TreeNode>, missing: seq<TreeNode>, start: Time): TreeDb {
    if RefreshCommits(db, start, reported, missing) then Refreshed(db, now, start, reported, missing) else db
  }

  function WithoutOldFree(leaves: map<LeafId, LeafRow>, start: Time): map<LeafId, LeafRow> {
    map l | l in leaves && !(leaves[l].reservation.None? && leaves[l].addedAt < start) :: leaves[l]
  }

  lemma TwoUpserts(leaves: map<LeafId, LeafRow>, good: map<LeafId, TreeNode>, bad: map<LeafId, TreeNode>, now: Time)
    ensures Upserted(Upserted(leaves, good, false, now), bad, true, now)
         == map l | l in leaves.Keys + good.Keys + bad.Keys ::
              if l in bad then Written(bad[l], true, ReservationOf(leaves, l), now)
              else if l in good then Written(good[l], false, ReservationOf(leaves, l), now)
              else leaves[l]
  {
  }

  lemma RowsAfterCleanup(db: TreeDb, now: Time, start: Time)
    ensures var kept := Released(WithoutOldFree(db.leaves, start), Stale(db, now));
            && kept.Keys == KeptByRefresh(db, start)
            && (forall l :: l in kept ==> kept[l] == db.leaves[l].(reservation := SurvivingReservation(db, now, l)))
            && (forall l :: ReservationOf(kept, l) == SurvivingReservation(db, now, l))
  {
    var kept := Released(WithoutOldFree(db.leaves, start), Stale(db, now));
    assert kept.Keys == KeptByRefresh(db, start);
    forall l ensures ReservationOf(kept, l) == SurvivingReservation(db, now, l) {
      if l in db.leaves && l !in kept {
        assert ReservationOf(db.leaves, l).None?;
      }
    }
  }

  /** The statement order of the refresh (delete old free rows, drop stale reservations, two upserts)
      yields the set expression: in particular rows freed by the timeout outlive the delete. */
  lemma RefreshStatements(db: TreeDb, now: Time, start: Time,
                          good: map<LeafId, TreeNode>, bad: map<LeafId, TreeNode>)
    ensures var kept := Released(WithoutOldFree(db.leaves, start), Stale(db, now));
            Upserted(Upserted(kept, good, false, now), bad, true, now) == RefreshedRows(db, now, start, good, bad)
  {
    RowsAfterCleanup(db, now, start);
    TwoUpserts(Released(WithoutOldFree(db.leaves, start), Stale(db, now)), good, bad, now);
  }

  /* ---------- cancel_reservation, finalize_reservation, update_reservation ---------- */

  function Cancel(db: TreeDb, id: ReservationId): TreeDb {
    if id !in db.reservations then db
    else db.(leaves := Released(db.leaves, {id}), reservations := db.reservations - {id})
  }

  function Finalize(db: TreeDb, now: Time, id: ReservationId, newLeaves: Option<seq<TreeNode>>): TreeDb {
    if id !in db.reservations || (newLeaves.Some? && !DistinctIds(newLeaves.value)) then db
    else
      var held := Held(db.leaves, id);
      TreeDb(
        Upserted(db.leaves - held, if newLeaves.Some? then ById(newLeaves.value) else map[], false, now),
        db.reservations - {id},
        Marked(db.spent, held, now),
        if db.reservations[id].purpose == Swap && newLeaves.Some? then Some(now) else db.lastCompletedAt)
  }

  predicate UpdateCommits(db: TreeDb, id: ReservationId, reserved: seq<TreeNode>, change: seq<TreeNode>) {
    id in db.reservations && DistinctIds(reserved) && DistinctIds(change)
  }

  function Update(db: TreeDb, now: Time, id: ReservationId, reserved: seq<TreeNode>, change: seq<TreeNode>): TreeDb {
    if !UpdateCommits(db, id, reserved, change) then db
    else
      var held := Held(db.leaves, id);
      var kept, taken, freed := db.leaves - held, ById(reserved), ById(change);
      db.(leaves := map l | l in kept.Keys + taken.Keys + freed.Keys ::
                      if l in taken then Written(taken[l], false, Some(id), now)
                      else if l in freed then Written(freed[l], false, ReservationOf(kept, l), now)
                      else kept[l],
          reservations := db.reservations[id := db.reservations[id].(pendingChange := 0)],
          spent := Marked(db.spent, held, now))
  }

  /** Two upserts and the assignment of the reservation give the expression above. */
  lemma UpdateStatements(leaves: map<LeafId, LeafRow>, now: Time, id: ReservationId,
                         taken: map<LeafId, TreeNode>, freed: map<LeafId, TreeNode>)
    ensures Assigned(Upserted(Upserted(leaves, freed, false, now), taken, false, now), taken.Keys, id)
         == map l | l in leaves.Keys + taken.Keys + freed.Keys ::
              if l in taken then Written(taken[l], false, Some(id), now)
              else if l in freed then Written(freed[l], false, ReservationOf(leaves, l), now)
              else leaves[l]
  {
  }

  /* ---------- try_reserve_leaves ---------- */

  /** `order` is the order in which the database returns the rows of `leaves`. */
  ghost predicate Lists(order: seq<LeafId>, leaves: map<LeafId, LeafRow>) {
    && (forall i, j :: 0 <= i < j < |order| ==> order[i] != order[j])
    && (forall l :: l in order <==> l in leaves)
  }

  predicate FastFilter(row: LeafRow) {
    row.status == "Available" && !row.missing && row.reservation.None?
  }

  function AvailableLeaves(leaves: map<LeafId, LeafRow>, order: seq<LeafId>): seq<TreeNode> {
    if order == [] then []
    else
      var l := order[|order| - 1];
      var before := AvailableLeaves(leaves, order[..|order| - 1]);
      if l in leaves && FastFilter(leaves[l]) then before + [leaves[l].node] else before
  }

  function PendingAmounts(reservations: map<ReservationId, ReservationRow>): map<ReservationId, int> {
    map r | r in reservations :: reservations[r].pendingChange
  }

  /** SUM(pending_change_amount), a number without bounds; the cast of it to 64 bits can fail. */
  ghost function PendingSum(reservations: map<ReservationId, ReservationRow>): int {
    SumOver(reservations.Keys, PendingAmounts(reservations))
  }

  function PendingBalance(sum: int): nat {
    if sum < 0 then 0 else sum
  }

  datatype Decision =
    | Take(leaves: seq<TreeNode>, pendingChange: nat)
    | Refuse(error: TreeServiceError)
    | Answer(result: ReserveResult)

  function Shortage(available: nat, pending: nat, target: nat): ReserveResult {
    if available + pending >= target then WaitForPending(target, available, pending) else NotEnough
  }

  function Decide(rows: seq<TreeNode>, pending: nat, targets: Option<TargetAmounts>, exactOnly: bool): Decision {
    var target := TotalSats(targets);
    match SelectByTargetAmounts(rows, targets)
    case Ok(selected) =>
      if selected.All() == [] then Refuse(NonReservableLeaves) else Take(selected.All(), 0)
    case Err(_) =>
      var minimum := MinimumAmount(rows, target);
      if !exactOnly && minimum.Ok? && minimum.value.Some? then
        var chosen := minimum.value.value;
        Take(chosen, if Total(chosen) > target && target > 0 then Total(chosen) - target else 0)
      else Answer(Shortage(Total(rows), pending, target))
  }

  function Reserve(db: TreeDb, now: Time, id: ReservationId, ids: set<LeafId>, purpose: ReservationPurpose,
                   pending: nat): TreeDb
  {
    db.(leaves := Assigned(db.leaves, ids, id),
        reservations := db.reservations[id := ReservationRow(purpose, AsI64(pending), now)])
  }

  ghost function ReserveDecision(db: TreeDb, order: seq<LeafId>, targets: Option<TargetAmounts>, exactOnly: bool)
    : Decision
  {
    Decide(AvailableLeaves(db.leaves, order), PendingBalance(PendingSum(db.reservations)), targets, exactOnly)
  }

  ghost predicate ReserveCommits(db: TreeDb, order: seq<LeafId>, id: ReservationId,
                                 targets: Option<TargetAmounts>, exactOnly: bool)
  {
    && FitsI64(PendingSum(db.reservations)) && id !in db.reservations
    && ReserveDecision(db, order, targets, exactOnly).Take?
  }

  ghost function TryReserve(db: TreeDb, now: Time, order: seq<LeafId>, id: ReservationId,
                            targets: Option<TargetAmounts>, exactOnly: bool, purpose: ReservationPurpose): TreeDb
  {
    if ReserveCommits(db, order, id, targets, exactOnly) then
      var d := ReserveDecision(db, order, targets, exactOnly);
      Reserve(db, now, id, Ids(d.leaves), purpose, d.pendingChange)
    else db
  }

  ghost function ReserveAnswer(db: TreeDb, order: seq<LeafId>, id: ReservationId,
                               targets: Option<TargetAmounts>, exactOnly: bool): Result<ReserveResult, TreeServiceError>
  {
    if !FitsI64(PendingSum(db.reservations)) then Err(DatabaseError)
    else
      match ReserveDecision(db, order, targets, exactOnly)
      case Refuse(e) => Err(e)
      case Answer(a) => Ok(a)
      case Take(chosen, _) => if id in db.reservations then Err(DatabaseError) else Ok(Success(chosen, id))
  }

  /* ---------- get_leaves ---------- */

  datatype Bucket =
    | AvailableBucket | NotAvailableBucket | MissingBucket | PaymentBucket | SwapBucket | HiddenBucket

  /** Where get_leaves puts a row; a missing leaf that is not available is dropped. */
  function BucketOf(db: TreeDb, row: LeafRow): Bucket {
    if row.reservation.Some? && row.reservation.value in db.reservations then
      if db.reservations[row.reservation.value].purpose == Payment then PaymentBucket else SwapBucket
    else if row.missing then
      if row.node.status == Available then MissingBucket else HiddenBucket
    else if row.node.status == Available then AvailableBucket
    else NotAvailableBucket
  }

  datatype Leaves = Leaves(
    available: seq<TreeNode>, notAvailable: seq<TreeNode>, availableMissing: seq<TreeNode>,
    reservedForPayment: seq<TreeNode>, reservedForSwap: seq<TreeNode>)

  /** The nodes of one bucket, in row order. */
  function InBucket(db: TreeDb, order: seq<LeafId>, b: Bucket): seq<TreeNode> {
    if order == [] then []
    else
      var l := order[|order| - 1];
      var before := InBucket(db, order[..|order| - 1], b);
      if l in db.leaves && BucketOf(db, db.leaves[l]) == b then before + [db.leaves[l].node] else before
  }

  lemma InBucketStep(db: TreeDb, order: seq<LeafId>, i: nat, b: Bucket)
    requires i < |order| && order[i] in db.leaves
    ensures InBucket(db, order[..i + 1], b)
         == InBucket(db, order[..i], b)
            + if BucketOf(db, db.leaves[order[i]]) == b then [db.leaves[order[i]].node] else []
  {
    assert order[..i + 1][..i] == order[..i];
  }
}
