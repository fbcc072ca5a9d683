/** Value in the leaf store: buckets, balances and pending change. */
module TreeValue {
  import opened Prelude
  import opened LeafSelection
  import opened TreeTables
  import opened TreeRuns
  import opened TreeReservations
  import opened TreeSpent

  function ValueMap(leaves: map<LeafId, LeafRow>): map<LeafId, int> {
    map l | l in leaves :: leaves[l].node.value
  }

  /** The value of the leaves in `ids`. */
  ghost function ValueOf(leaves: map<LeafId, LeafRow>, ids: set<LeafId>): int {
    SumOver(ids, ValueMap(leaves))
  }

  lemma ValueNonNegative(leaves: map<LeafId, LeafRow>, ids: set<LeafId>)
    ensures ValueOf(leaves, ids) >= 0
  {
    SumNonNegative(ids, ValueMap(leaves));
  }

  lemma ValueSame(a: map<LeafId, LeafRow>, b: map<LeafId, LeafRow>, ids: set<LeafId>)
    requires forall l :: l in ids ==> l in a && l in b && a[l].node.value == b[l].node.value
    ensures ValueOf(a, ids) == ValueOf(b, ids)
  {
    SumSame(ids, ValueMap(a), ValueMap(b));
  }

  /** A list of stored leaves with distinct ids is worth the value of its ids. */
  lemma {:induction false} TotalIsValue(leaves: map<LeafId, LeafRow>, nodes: seq<TreeNode>)
    requires DistinctIds(nodes)
    requires forall n :: n in nodes ==> n.id in leaves && leaves[n.id].node == n
    ensures Total(nodes) == ValueOf(leaves, Ids(nodes))
  {
    if nodes == [] {
      assert Ids(nodes) == {};
    } else {
      var head, rest := nodes[0], nodes[1..];
      TotalIsValue(leaves, rest);
      assert head.id !in Ids(rest);
      assert Ids(nodes) == {head.id} + Ids(rest);
      SumRemove(Ids(nodes), ValueMap(leaves), head.id);
      assert Ids(nodes) - {head.id} == Ids(rest);
    }
  }

  /* ---------- the buckets of get_leaves ---------- */

  ghost function BucketIds(db: TreeDb, b: Bucket): set<LeafId> {
    set l | l in db.leaves && BucketOf(db, db.leaves[l]) == b
  }

  lemma {:induction false} InBucketAre(db: TreeDb, order: seq<LeafId>, b: Bucket)
    requires forall l :: l in db.leaves ==> db.leaves[l].node.id == l
    requires forall i, j :: 0 <= i < j < |order| ==> order[i] != order[j]
    ensures var nodes := InBucket(db, order, b);
            && DistinctIds(nodes)
            && (forall n :: n in nodes <==>
                  n.id in order && n.id in db.leaves && db.leaves[n.id].node == n && BucketOf(db, db.leaves[n.id]) == b)
  {
    if order != [] {
      var k := |order| - 1;
      InBucketAre(db, order[..k], b);
      assert order == order[..k] + [order[k]];
      assert order[k] !in order[..k];
    }
  }

  /** A bucket lists each of its leaves once; its total is the value of those leaves. */
  lemma BucketTotal(db: TreeDb, order: seq<LeafId>, b: Bucket)
    requires Consistent(db) && Lists(order, db.leaves)
    ensures var nodes := InBucket(db, order, b);
            DistinctIds(nodes) && Ids(nodes) == BucketIds(db, b) && Total(nodes) == ValueOf(db.leaves, BucketIds(db, b))
  {
    forall l | l in db.leaves ensures db.leaves[l].node.id == l {
      assert RowConsistent(db, l, db.leaves[l]);
    }
    InBucketAre(db, order, b);
    var nodes := InBucket(db, order, b);
    forall l | l in BucketIds(db, b) ensures l in Ids(nodes) {
      assert db.leaves[l].node in nodes;
    }
    TotalIsValue(db.leaves, nodes);
  }

  lemma SumOfSix<T>(a: set<T>, b: set<T>, c: set<T>, d: set<T>, e: set<T>, f: set<T>, w: map<T, int>)
    requires a !! b !! c !! d !! e !! f
    ensures SumOver(a + b + c + d + e + f, w)
         == SumOver(a, w) + SumOver(b, w) + SumOver(c, w) + SumOver(d, w) + SumOver(e, w) + SumOver(f, w)
  {
    SumDisjointUnion(a, b, w);
    SumDisjointUnion(a + b, c, w);
    SumDisjointUnion(a + b + c, d, w);
    SumDisjointUnion(a + b + c + d, e, w);
    SumDisjointUnion(a + b + c + d + e, f, w);
  }

  /** The five buckets and the hidden rows (missing and not available) partition the table. */
  lemma BucketsPartition(db: TreeDb)
    ensures var a, n, m, p, s, h := BucketIds(db, AvailableBucket), BucketIds(db, NotAvailableBucket),
                                    BucketIds(db, MissingBucket), BucketIds(db, PaymentBucket),
                                    BucketIds(db, SwapBucket), BucketIds(db, HiddenBucket);
            && a + n + m + p + s + h == db.leaves.Keys
            && a !! n !! m !! p !! s !! h
            && ValueOf(db.leaves, a) + ValueOf(db.leaves, n) + ValueOf(db.leaves, m) + ValueOf(db.leaves, p)
               + ValueOf(db.leaves, s) + ValueOf(db.leaves, h) == ValueOf(db.leaves, db.leaves.Keys)
  {
    var a, n, m, p, s, h := BucketIds(db, AvailableBucket), BucketIds(db, NotAvailableBucket),
                            BucketIds(db, MissingBucket), BucketIds(db, PaymentBucket),
                            BucketIds(db, SwapBucket), BucketIds(db, HiddenBucket);
    EveryRowHasABucket(db);
    SumOfSix(a, n, m, p, s, h, ValueMap(db.leaves));
  }

  lemma EveryRowHasABucket(db: TreeDb)
    ensures BucketIds(db, AvailableBucket) + BucketIds(db, NotAvailableBucket) + BucketIds(db, MissingBucket)
            + BucketIds(db, PaymentBucket) + BucketIds(db, SwapBucket) + BucketIds(db, HiddenBucket) == db.leaves.Keys
  {
    forall l | l in db.leaves
      ensures BucketOf(db, db.leaves[l]) in [AvailableBucket, NotAvailableBucket, MissingBucket, PaymentBucket,
                                             SwapBucket, HiddenBucket]
    {
    }
  }

  lemma AvailableText(status: TreeNodeStatus)
    ensures StatusText(status) == "Available" <==> status == Available
  {
  }

  /** In every reachable state the SQL filter of try_reserve_leaves reads exactly the leaves that
      get_leaves reports as available. */
  lemma FilterReadsTheAvailableBucket(ops: seq<Op>, order: seq<LeafId>)
    ensures var db := Run(EmptyDb, ops); AvailableLeaves(db.leaves, order) == InBucket(db, order, AvailableBucket)
  {
    RunKeepsConsistent(EmptyDb, ops);
    SameRows(Run(EmptyDb, ops), order);
  }

  lemma {:induction false} SameRows(db: TreeDb, order: seq<LeafId>)
    requires Consistent(db)
    ensures AvailableLeaves(db.leaves, order) == InBucket(db, order, AvailableBucket)
  {
    if order != [] {
      var l := order[|order| - 1];
      SameRows(db, order[..|order| - 1]);
      if l in db.leaves {
        assert RowConsistent(db, l, db.leaves[l]);
        AvailableText(db.leaves[l].node.status);
      }
    }
  }

  /* ---------- conservation when reserving ---------- */

  function BucketFor(purpose: ReservationPurpose): Bucket {
    if purpose == Payment then PaymentBucket else SwapBucket
  }

  /** Total balance: available, missing and swap-reserved leaves; payments under way are excluded. */
  ghost function Balance(db: TreeDb): int {
    ValueOf(db.leaves, BucketIds(db, AvailableBucket)) + ValueOf(db.leaves, BucketIds(db, MissingBucket))
    + ValueOf(db.leaves, BucketIds(db, SwapBucket))
  }

  lemma RowsMove(db: TreeDb, after: TreeDb, chosen: set<LeafId>, from: Bucket, to: Bucket)
    requires from != to && after.leaves.Keys == db.leaves.Keys && chosen <= db.leaves.Keys
    requires forall l :: l in chosen ==>
               BucketOf(db, db.leaves[l]) == from && BucketOf(after, after.leaves[l]) == to
    requires forall l :: l in db.leaves && l !in chosen ==>
               BucketOf(after, after.leaves[l]) == BucketOf(db, db.leaves[l])
    ensures chosen <= BucketIds(db, from)
    ensures BucketIds(after, from) == BucketIds(db, from) - chosen
    ensures BucketIds(after, to) == BucketIds(db, to) + chosen
    ensures forall b :: b != from && b != to ==> BucketIds(after, b) == BucketIds(db, b)
  {
  }

  /** A committed reservation moves exactly the chosen leaves from the available bucket to the bucket of its
      purpose; no other bucket changes, and no leaf changes its value. */
  lemma ReserveMovesRows(db: TreeDb, op: Op)
    requires Consistent(db) && op.ReserveOp? && Possible(db, op)
    requires ReserveCommits(db, op.order, op.id, op.targets, op.exactOnly)
    ensures var chosen := Ids(ReserveDecision(db, op.order, op.targets, op.exactOnly).leaves);
            var after, to := Step(db, op), BucketFor(op.purpose);
            && chosen <= BucketIds(db, AvailableBucket)
            && BucketIds(after, AvailableBucket) == BucketIds(db, AvailableBucket) - chosen
            && BucketIds(after, to) == BucketIds(db, to) + chosen
            && (forall b :: b != AvailableBucket && b != to ==> BucketIds(after, b) == BucketIds(db, b))
            && (forall ids :: ids <= db.leaves.Keys ==> ValueOf(after.leaves, ids) == ValueOf(db.leaves, ids))
  {
    ReserveHoldsExactly(db, op);
    ReserveTakes(db, op);
    var chosen := Ids(ReserveDecision(db, op.order, op.targets, op.exactOnly).leaves);
    var after, to := Step(db, op), BucketFor(op.purpose);
    forall l | l in db.leaves
      ensures l in chosen ==> BucketOf(db, db.leaves[l]) == AvailableBucket && BucketOf(after, after.leaves[l]) == to
      ensures l !in chosen ==> BucketOf(after, after.leaves[l]) == BucketOf(db, db.leaves[l])
    {
      ReservedRowBucket(db, op, l);
    }
    RowsMove(db, after, chosen, AvailableBucket, to);
    forall ids | ids <= db.leaves.Keys ensures ValueOf(after.leaves, ids) == ValueOf(db.leaves, ids) {
      ValueSame(after.leaves, db.leaves, ids);
    }
  }

  lemma BucketWithNewReservation(db: TreeDb, after: TreeDb, id: ReservationId, row: LeafRow)
    requires id !in db.reservations && id in after.reservations && after.reservations - {id} == db.reservations
    requires row.reservation.Some? ==> row.reservation.value in db.reservations
    ensures BucketOf(after, row) == BucketOf(db, row)
    ensures BucketOf(after, row.(reservation := Some(id))) == BucketFor(after.reservations[id].purpose)
  {
    forall r | r in db.reservations ensures r in after.reservations && after.reservations[r] == db.reservations[r] {
      assert r in after.reservations - {id};
    }
  }

  lemma ReservedRowBucket(db: TreeDb, op: Op, l: LeafId)
    requires Consistent(db) && op.ReserveOp? && Possible(db, op) && l in db.leaves
    requires ReserveCommits(db, op.order, op.id, op.targets, op.exactOnly)
    ensures var chosen := Ids(ReserveDecision(db, op.order, op.targets, op.exactOnly).leaves);
            var after := Step(db, op);
            && after.leaves.Keys == db.leaves.Keys
            && (l in chosen ==> BucketOf(db, db.leaves[l]) == AvailableBucket
                                && BucketOf(after, after.leaves[l]) == BucketFor(op.purpose))
            && (l !in chosen ==> BucketOf(after, after.leaves[l]) == BucketOf(db, db.leaves[l]))
  {
    ReserveHoldsExactly(db, op);
    assert RowConsistent(db, l, db.leaves[l]);
    AvailableText(db.leaves[l].node.status);
    BucketWithNewReservation(db, Step(db, op), op.id, db.leaves[l]);
  }

  /** The same in value: what is chosen leaves the available bucket and enters the other one.
      A swap keeps the balance, a payment lowers it by the value taken. */
  lemma ReserveMovesValue(db: TreeDb, op: Op)
    requires Consistent(db) && op.ReserveOp? && Possible(db, op)
    requires ReserveCommits(db, op.order, op.id, op.targets, op.exactOnly)
    ensures var chosen := ReserveDecision(db, op.order, op.targets, op.exactOnly).leaves;
            var after, to := Step(db, op), BucketFor(op.purpose);
            && ValueOf(after.leaves, BucketIds(after, to)) == ValueOf(db.leaves, BucketIds(db, to)) + Total(chosen)
            && ValueOf(after.leaves, BucketIds(after, AvailableBucket)) + Total(chosen)
               == ValueOf(db.leaves, BucketIds(db, AvailableBucket))
            && Balance(after) == Balance(db) - if op.purpose == Payment then Total(chosen) else 0
  {
    ReserveMovesRows(db, op);
    ReserveTakes(db, op);
    var chosen := ReserveDecision(db, op.order, op.targets, op.exactOnly).leaves;
    var after, to := Step(db, op), BucketFor(op.purpose);
    TotalIsValue(db.leaves, chosen);
    MovedBalance(db, after, Ids(chosen), to);
  }

  /** When rows move from the available bucket to another one that is not the missing bucket, so does their value. */
  lemma MovedBalance(db: TreeDb, after: TreeDb, moved: set<LeafId>, to: Bucket)
    requires moved <= BucketIds(db, AvailableBucket) && after.leaves.Keys == db.leaves.Keys
    requires to != AvailableBucket && to != MissingBucket
    requires BucketIds(after, AvailableBucket) == BucketIds(db, AvailableBucket) - moved
    requires BucketIds(after, to) == BucketIds(db, to) + moved
    requires forall b :: b != AvailableBucket && b != to ==> BucketIds(after, b) == BucketIds(db, b)
    requires forall ids :: ids <= db.leaves.Keys ==> ValueOf(after.leaves, ids) == ValueOf(db.leaves, ids)
    ensures ValueOf(after.leaves, BucketIds(after, to))
         == ValueOf(db.leaves, BucketIds(db, to)) + ValueOf(db.leaves, moved)
    ensures ValueOf(after.leaves, BucketIds(after, AvailableBucket)) + ValueOf(db.leaves, moved)
         == ValueOf(db.leaves, BucketIds(db, AvailableBucket))
    ensures Balance(after) == Balance(db) - if to == SwapBucket then 0 else ValueOf(db.leaves, moved)
  {
    MovedSums(ValueMap(db.leaves), BucketIds(db, AvailableBucket), BucketIds(db, to), moved);
    forall b ensures ValueOf(after.leaves, BucketIds(after, b)) == ValueOf(db.leaves, BucketIds(after, b)) {
      assert BucketIds(after, b) <= db.leaves.Keys;
    }
  }

  lemma MovedSums<T>(w: map<T, int>, from: set<T>, to: set<T>, moved: set<T>)
    requires moved <= from && from !! to
    ensures SumOver(from - moved, w) + SumOver(moved, w) == SumOver(from, w)
    ensures SumOver(to + moved, w) == SumOver(to, w) + SumOver(moved, w)
  {
    SumDisjointUnion(from - moved, moved, w);
    assert from - moved + moved == from;
    SumDisjointUnion(to, moved, w);
  }

  /* ---------- pending change is always covered ---------- */

  ghost predicate Covered(db: TreeDb) {
    forall r :: r in db.reservations ==> db.reservations[r].pendingChange <= ValueOf(db.leaves, Held(db.leaves, r))
  }

  /** Every write of leaf `l` carries the value `v(l)`. */
  ghost predicate FixedRows(v: LeafId -> nat, db: TreeDb) {
    forall l :: l in db.leaves ==> db.leaves[l].node.value == v(l)
  }

  predicate Valued(v: LeafId -> nat, nodes: seq<TreeNode>) {
    forall n :: n in nodes ==> n.value == v(n.id)
  }

  predicate FixedValues(v: LeafId -> nat, op: Op) {
    match op
    case AddOp(_, nodes) => Valued(v, nodes)
    case SetOp(_, reported, missing, _) => Valued(v, reported) && Valued(v, missing)
    case UpdateOp(_, _, reserved, change) => Valued(v, reserved) && Valued(v, change)
    case FinalizeOp(_, _, Some(nodes)) => Valued(v, nodes)
    case _ => true
  }

  /** A committed update takes over the leaves it names as reserved. What the other reservations are left with must
      still be worth their pending change; naming no leaf of theirs is enough. */
  ghost predicate LeavesOthersCovered(db: TreeDb, op: Op) {
    op.UpdateOp? && UpdateCommits(db, op.id, op.reserved, op.change) ==>
      forall r :: r in db.reservations && r != op.id ==>
        db.reservations[r].pendingChange <= ValueOf(db.leaves, Held(db.leaves, r) - Ids(op.reserved))
  }

  lemma BatchValues(v: LeafId -> nat, nodes: seq<TreeNode>, skip: set<LeafId>)
    requires Valued(v, nodes)
    ensures forall l :: l in ById(nodes) ==> ById(nodes)[l].value == v(l)
    ensures forall l :: l in ById(Without(nodes, skip)) ==> ById(Without(nodes, skip))[l].value == v(l)
  {
    WithoutMembers(nodes, skip);
  }

  lemma StepKeepsValues(v: LeafId -> nat, db: TreeDb, op: Op)
    requires FixedRows(v, db) && FixedValues(v, op)
    ensures FixedRows(v, Step(db, op))
  {
    match op
    case AddOp(_, nodes) => BatchValues(v, nodes, {});
    case SetOp(_, reported, missing, start) =>
      BatchValues(v, reported, RecentlySpent(db, start));
      BatchValues(v, missing, RecentlySpent(db, start));
    case UpdateOp(_, _, reserved, change) =>
      BatchValues(v, reserved, {});
      BatchValues(v, change, {});
    case FinalizeOp(_, _, newLeaves) =>
      if newLeaves.Some? { BatchValues(v, newLeaves.value, {}); }
    case ReserveOp(_, _, _, _, _, _) =>
    case CancelOp(_) =>
  }

  lemma HeldUnderUpdate(db: TreeDb, op: Op, r: ReservationId)
    requires op.UpdateOp? && UpdateCommits(db, op.id, op.reserved, op.change) && op.id != r
    ensures Held(Step(db, op).leaves, r) == Held(db.leaves, r) - Ids(op.reserved)
  {
    var after := Step(db, op);
    forall l ensures l in Held(after.leaves, r) <==> l in Held(db.leaves, r) - Ids(op.reserved) {
      assert l in Held(db.leaves, r) ==> l !in Held(db.leaves, op.id);
    }
  }

  /** The exact condition, checkable before the call: an update leaves every pending change covered if and only if
      the other reservations keep enough. */
  lemma UpdateKeepsCoveredIff(v: LeafId -> nat, db: TreeDb, op: Op)
    requires FixedRows(v, db) && FixedValues(v, op) && Covered(db)
    requires op.UpdateOp? && UpdateCommits(db, op.id, op.reserved, op.change)
    ensures Covered(Step(db, op)) <==> LeavesOthersCovered(db, op)
  {
    var after := Step(db, op);
    StepKeepsValues(v, db, op);
    forall r | r in db.reservations && r != op.id
      ensures after.reservations[r] == db.reservations[r]
      ensures ValueOf(after.leaves, Held(after.leaves, r)) == ValueOf(db.leaves, Held(db.leaves, r) - Ids(op.reserved))
    {
      HeldUnderUpdate(db, op, r);
      ValueSame(after.leaves, db.leaves, Held(after.leaves, r));
    }
    ValueNonNegative(after.leaves, Held(after.leaves, op.id));
    assert after.reservations[op.id].pendingChange == 0;
    assert after.reservations.Keys == db.reservations.Keys;
  }

  /** An update that names no leaf of another reservation is fine. */
  lemma TakingNoOthersIsEnough(db: TreeDb, op: Op)
    requires Covered(db) && op.UpdateOp?
    requires forall n :: n in op.reserved && ReservationOf(db.leaves, n.id).Some? ==>
               ReservationOf(db.leaves, n.id).value == op.id
    ensures LeavesOthersCovered(db, op)
  {
    forall r | r in db.reservations && r != op.id
      ensures Held(db.leaves, r) - Ids(op.reserved) == Held(db.leaves, r)
    {
      forall l | l in Held(db.leaves, r) ensures l !in Ids(op.reserved) {
        assert ReservationOf(db.leaves, l) == Some(r);
      }
    }
  }

  lemma HeldUnderRefresh(db: TreeDb, op: Op, r: ReservationId, l: LeafId)
    requires op.SetOp? && r in Step(db, op).reservations && l in Held(db.leaves, r)
    ensures l in Held(Step(db, op).leaves, r)
  {
    if RefreshCommits(db, op.start, op.reported, op.missing) {
      RefreshExactly(db, op);
      assert SurvivingReservation(db, op.now, l) == Some(r);
    }
  }

  lemma HeldUnderReserve(db: TreeDb, op: Op, r: ReservationId, l: LeafId)
    requires Consistent(db) && Possible(db, op)
    requires op.ReserveOp? && r in db.reservations && l in Held(db.leaves, r)
    ensures l in Held(Step(db, op).leaves, r)
  {
    if ReserveCommits(db, op.order, op.id, op.targets, op.exactOnly) {
      ReserveHoldsExactly(db, op);
    }
  }

  /** Nothing but an update shrinks what a surviving reservation holds. */
  lemma HeldGrows(db: TreeDb, op: Op, r: ReservationId)
    requires Consistent(db) && Possible(db, op) && !op.UpdateOp?
    requires r in db.reservations && r in Step(db, op).reservations
    ensures Held(db.leaves, r) <= Held(Step(db, op).leaves, r)
  {
    forall l | l in Held(db.leaves, r) ensures l in Held(Step(db, op).leaves, r) {
      if op.SetOp? {
        HeldUnderRefresh(db, op, r, l);
      } else if op.ReserveOp? {
        HeldUnderReserve(db, op, r, l);
      }
    }
  }

  lemma WrapOnlyLowers(x: nat)
    ensures AsI64(x) <= x
  {
  }

  lemma OldReservationCovered(v: LeafId -> nat, db: TreeDb, op: Op, r: ReservationId)
    requires Consistent(db) && Possible(db, op) && Covered(db) && FixedRows(v, db) && FixedRows(v, Step(db, op))
    requires !op.UpdateOp? && r in db.reservations && r in Step(db, op).reservations
    ensures var after := Step(db, op);
            after.reservations[r].pendingChange <= ValueOf(after.leaves, Held(after.leaves, r))
  {
    var after := Step(db, op);
    HeldGrows(db, op, r);
    SumMonotone(Held(db.leaves, r), ValueMap(db.leaves), Held(after.leaves, r), ValueMap(after.leaves));
  }

  lemma StepKeepsCovered(v: LeafId -> nat, db: TreeDb, op: Op)
    requires Consistent(db) && Possible(db, op) && Covered(db) && FixedRows(v, db)
    requires FixedValues(v, op) && LeavesOthersCovered(db, op)
    ensures Covered(Step(db, op))
  {
    var after := Step(db, op);
    StepKeepsValues(v, db, op);
    if op.UpdateOp? {
      if UpdateCommits(db, op.id, op.reserved, op.change) {
        UpdateKeepsCoveredIff(v, db, op);
      }
    } else {
      forall r | r in after.reservations
        ensures after.reservations[r].pendingChange <= ValueOf(after.leaves, Held(after.leaves, r))
      {
        if r in db.reservations {
          OldReservationCovered(v, db, op, r);
        } else {
          OnlyRequestsCreate(db, op, r);
          NewReservationCovered(db, op);
        }
      }
    }
  }

  lemma NewReservationCovered(db: TreeDb, op: Op)
    requires Consistent(db) && op.ReserveOp? && Possible(db, op)
    requires ReserveCommits(db, op.order, op.id, op.targets, op.exactOnly)
    ensures var after := Step(db, op);
            after.reservations[op.id].pendingChange <= ValueOf(after.leaves, Held(after.leaves, op.id))
  {
    ReserveHoldsExactly(db, op);
    ReserveTakes(db, op);
    var d := ReserveDecision(db, op.order, op.targets, op.exactOnly);
    var after := Step(db, op);
    TotalIsValue(after.leaves, d.leaves);
    WrapOnlyLowers(d.pendingChange);
  }

  /** For instance, a reservation that still waits for change and loses everything it holds to an update that names
      its leaves is no longer covered. */
  lemma TakingOthersUncovers(db: TreeDb, op: Op, r: ReservationId)
    requires op.UpdateOp? && UpdateCommits(db, op.id, op.reserved, op.change)
    requires r in db.reservations && r != op.id && db.reservations[r].pendingChange > 0
    requires Held(db.leaves, r) <= Ids(op.reserved)
    ensures Held(Step(db, op).leaves, r) == {} && !Covered(Step(db, op))
  {
    var after := Step(db, op);
    forall l | l in after.leaves ensures after.leaves[l].reservation != Some(r) {
      if l in db.leaves && db.leaves[l].reservation == Some(r) {
        assert l in Held(db.leaves, r);
      }
    }
    assert Held(after.leaves, r) == {};
    assert after.reservations[r].pendingChange == db.reservations[r].pendingChange;
    assert ValueOf(after.leaves, {}) == 0;
  }

  /** A possible run from the empty store in which every leaf has one value. */
  ghost predicate FixedRun(v: LeafId -> nat, ops: seq<Op>) {
    PossibleRun(EmptyDb, ops) && forall op :: op in ops ==> FixedValues(v, op)
  }

  ghost predicate HonestRun(v: LeafId -> nat, ops: seq<Op>) {
    FixedRun(v, ops) && forall i :: 0 <= i < |ops| ==> LeavesOthersCovered(Run(EmptyDb, ops[..i]), ops[i])
  }

  lemma {:induction false} FixedUpTo(v: LeafId -> nat, ops: seq<Op>, n: nat)
    requires FixedRun(v, ops) && n <= |ops|
    ensures FixedRows(v, Run(EmptyDb, ops[..n]))
  {
    if n > 0 {
      FixedUpTo(v, ops, n - 1);
      RunOneMore(EmptyDb, ops, n - 1);
      assert ops[n - 1] in ops;
      StepKeepsValues(v, Run(EmptyDb, ops[..n - 1]), ops[n - 1]);
    }
  }

  lemma CoveredOneMore(v: LeafId -> nat, ops: seq<Op>, n: nat)
    requires FixedRun(v, ops) && n < |ops|
    requires Covered(Run(EmptyDb, ops[..n])) && LeavesOthersCovered(Run(EmptyDb, ops[..n]), ops[n])
    ensures Covered(Run(EmptyDb, ops[..n + 1]))
  {
    FixedUpTo(v, ops, n);
    RunOneMore(EmptyDb, ops, n);
    RunKeepsConsistent(EmptyDb, ops[..n]);
    assert ops[n] in ops;
    StepKeepsCovered(v, Run(EmptyDb, ops[..n]), ops[n]);
  }

  lemma {:induction false} CoveredUpTo(v: LeafId -> nat, ops: seq<Op>, n: nat)
    requires HonestRun(v, ops) && n <= |ops|
    ensures Covered(Run(EmptyDb, ops[..n]))
  {
    if n > 0 {
      CoveredUpTo(v, ops, n - 1);
      CoveredOneMore(v, ops, n - 1);
    }
  }

  lemma RunKeepsCovered(v: LeafId -> nat, ops: seq<Op>)
    requires HonestRun(v, ops)
    ensures Covered(Run(EmptyDb, ops)) && FixedRows(v, Run(EmptyDb, ops))
  {
    CoveredUpTo(v, ops, |ops|);
    FixedUpTo(v, ops, |ops|);
    assert ops[..|ops|] == ops;
  }

  lemma HonestAt(v: LeafId -> nat, ops: seq<Op>, n: nat)
    requires FixedRun(v, ops) && n < |ops|
    requires Covered(Run(EmptyDb, ops[..n])) && Covered(Run(EmptyDb, ops[..n + 1]))
    ensures LeavesOthersCovered(Run(EmptyDb, ops[..n]), ops[n])
  {
    var db, op := Run(EmptyDb, ops[..n]), ops[n];
    FixedUpTo(v, ops, n);
    RunOneMore(EmptyDb, ops, n);
    assert op in ops;
    if op.UpdateOp? && UpdateCommits(db, op.id, op.reserved, op.change) {
      UpdateKeepsCoveredIff(v, db, op);
    }
  }

  /** Over a whole run, pending change stays covered at every moment exactly when every update leaves the other
      reservations enough. */
  lemma RunCoveredIff(v: LeafId -> nat, ops: seq<Op>)
    requires FixedRun(v, ops)
    ensures (forall n :: 0 <= n <= |ops| ==> Covered(Run(EmptyDb, ops[..n]))) <==> HonestRun(v, ops)
  {
    if HonestRun(v, ops) {
      forall n | 0 <= n <= |ops| ensures Covered(Run(EmptyDb, ops[..n])) {
        CoveredUpTo(v, ops, n);
      }
    }
    if forall n :: 0 <= n <= |ops| ==> Covered(Run(EmptyDb, ops[..n])) {
      forall n | 0 <= n < |ops| ensures LeavesOthersCovered(Run(EmptyDb, ops[..n]), ops[n]) {
        HonestAt(v, ops, n);
      }
    }
  }

  ghost function HeldByAny(leaves: map<LeafId, LeafRow>, rs: set<ReservationId>): set<LeafId> {
    set l | l in leaves && leaves[l].reservation.Some? && leaves[l].reservation.value in rs
  }

  lemma {:induction false} PendingWithinHeld(db: TreeDb, rs: set<ReservationId>)
    requires Covered(db) && rs <= db.reservations.Keys
    ensures SumOver(rs, PendingAmounts(db.reservations)) <= ValueOf(db.leaves, HeldByAny(db.leaves, rs))
  {
    if rs == {} {
      assert HeldByAny(db.leaves, rs) == {};
    } else {
      var r :| r in rs;
      SumRemove(rs, PendingAmounts(db.reservations), r);
      PendingWithinHeld(db, rs - {r});
      var rest, own := HeldByAny(db.leaves, rs - {r}), Held(db.leaves, r);
      assert HeldByAny(db.leaves, rs) == rest + own;
      SumDisjointUnion(rest, own, ValueMap(db.leaves));
    }
  }

  lemma PendingWithinReserved(db: TreeDb)
    requires Consistent(db) && Covered(db)
    ensures PendingBalance(PendingSum(db.reservations))
         <= ValueOf(db.leaves, BucketIds(db, PaymentBucket) + BucketIds(db, SwapBucket))
  {
    PendingWithinHeld(db, db.reservations.Keys);
    var reserved := BucketIds(db, PaymentBucket) + BucketIds(db, SwapBucket);
    forall l | l in db.leaves
      ensures l in HeldByAny(db.leaves, db.reservations.Keys) <==> l in reserved
    {
      assert RowConsistent(db, l, db.leaves[l]);
    }
    assert HeldByAny(db.leaves, db.reservations.Keys) == reserved;
    ValueNonNegative(db.leaves, reserved);
  }

  /** A request told to wait for pending change is never promised more than the store holds: what is
      available plus what is pending is at most the value of available and reserved leaves together. */
  lemma WaitIsBacked(v: LeafId -> nat, ops: seq<Op>, order: seq<LeafId>, id: ReservationId,
                     targets: Option<TargetAmounts>, exactOnly: bool)
    requires HonestRun(v, ops) && Lists(order, Run(EmptyDb, ops).leaves)
    ensures var db := Run(EmptyDb, ops);
            var answer := ReserveAnswer(db, order, id, targets, exactOnly);
            var reserved := BucketIds(db, PaymentBucket) + BucketIds(db, SwapBucket);
            answer.Ok? && answer.value.WaitForPending? ==>
              && answer.value.needed <= answer.value.available + answer.value.pending
              && answer.value.available == ValueOf(db.leaves, BucketIds(db, AvailableBucket))
              && answer.value.pending <= ValueOf(db.leaves, reserved)
  {
    var db := Run(EmptyDb, ops);
    RunKeepsConsistent(EmptyDb, ops);
    RunKeepsCovered(v, ops);
    FilterReadsTheAvailableBucket(ops, order);
    BucketTotal(db, order, AvailableBucket);
    PendingWithinReserved(db);
    WaitAnswer(AvailableLeaves(db.leaves, order), PendingBalance(PendingSum(db.reservations)), targets, exactOnly);
  }

  lemma WaitAnswer(rows: seq<TreeNode>, pending: nat, targets: Option<TargetAmounts>, exactOnly: bool)
    ensures var d := Decide(rows, pending, targets, exactOnly);
            d.Answer? && d.result.WaitForPending? ==>
              && d.result.needed <= d.result.available + d.result.pending
              && d.result.available == Total(rows) && d.result.pending == pending
  {
  }
}
