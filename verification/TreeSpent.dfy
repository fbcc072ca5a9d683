/** Spent markers: when can a stale refresh bring a spent leaf back? */
module TreeSpent {
  import opened Prelude
  import opened LeafSelection
  import opened TreeTables
  import opened TreeRuns
  import opened TreeReservations

  /** A finalize or update that commits and consumes leaf `x`. */
  predicate Spends(db: TreeDb, op: Op, x: LeafId) {
    match op
    case FinalizeOp(_, id, newLeaves) =>
      && id in db.reservations && (newLeaves.Some? ==> DistinctIds(newLeaves.value))
      && x in Held(db.leaves, id) && x !in WrittenBy(op)
    case UpdateOp(_, id, reserved, change) =>
      UpdateCommits(db, id, reserved, change) && x in Held(db.leaves, id) && x !in WrittenBy(op)
    case _ => false
  }

  /** The time the marker of `x` carries after it is spent at `now`: an older marker is kept. */
  function MarkerTime(db: TreeDb, x: LeafId, now: Time): Time {
    if x in db.spent then db.spent[x] else now
  }

  lemma SpendMarks(db: TreeDb, op: Op, x: LeafId)
    requires Spends(db, op, x)
    ensures var after := Step(db, op);
            x !in after.leaves && x in after.spent && after.spent[x] == MarkerTime(db, x, op.now)
  {
  }

  lemma MarkerStep(db: TreeDb, op: Op, x: LeafId)
    requires x in db.spent && x !in WrittenBy(op)
    requires op.SetOp? ==> op.start <= db.spent[x] + SPENT_MARKER_CLEANUP_THRESHOLD_MS
    ensures x in Step(db, op).spent && Step(db, op).spent[x] == db.spent[x]
  {
  }

  /** Exactly when a committed refresh keeps a marker: while the refresh started at most five minutes after it. */
  lemma RefreshKeepsMarkerIff(db: TreeDb, op: Op, x: LeafId)
    requires x in db.spent && op.SetOp? && RefreshCommits(db, op.start, op.reported, op.missing)
    ensures x in Step(db, op).spent <==> op.start <= db.spent[x] + SPENT_MARKER_CLEANUP_THRESHOLD_MS
  {
  }

  /** A finalize or update of the reservation that holds leaf `l`. */
  predicate Consumes(db: TreeDb, op: Op, l: LeafId) {
    (op.FinalizeOp? || op.UpdateOp?) && op.id in db.reservations && l in Held(db.leaves, op.id)
  }

  lemma MarkerChange(db: TreeDb, op: Op, x: LeafId)
    requires x in Step(db, op).spent
    ensures if x in db.spent then Step(db, op).spent[x] == db.spent[x]
            else Consumes(db, op, x) && Step(db, op).spent[x] == op.now
  {
  }

  /** Operation `k` of a run consumes `x`, which has no marker then, and up to operation `n` the marker it leaves is
      not moved. */
  ghost predicate FirstSpend(ops: seq<Op>, n: nat, k: nat, x: LeafId)
    requires n <= |ops|
  {
    && k < n && Consumes(Run(EmptyDb, ops[..k]), ops[k], x) && x !in Run(EmptyDb, ops[..k]).spent
    && forall j :: k < j <= n ==>
         x in Run(EmptyDb, ops[..j]).spent && Run(EmptyDb, ops[..j]).spent[x] == ops[k].now
  }

  lemma MarkerChangeAt(ops: seq<Op>, n: nat, x: LeafId)
    requires n < |ops| && x in Run(EmptyDb, ops[..n + 1]).spent
    ensures var before, after := Run(EmptyDb, ops[..n]), Run(EmptyDb, ops[..n + 1]);
            if x in before.spent then after.spent[x] == before.spent[x]
            else Consumes(before, ops[n], x) && after.spent[x] == ops[n].now
  {
    RunOneMore(EmptyDb, ops, n);
    MarkerChange(Run(EmptyDb, ops[..n]), ops[n], x);
  }

  lemma FirstSpendOneMore(ops: seq<Op>, n: nat, k: nat, x: LeafId)
    requires n < |ops| && FirstSpend(ops, n, k, x) && x in Run(EmptyDb, ops[..n + 1]).spent
    ensures FirstSpend(ops, n + 1, k, x)
  {
    MarkerChangeAt(ops, n, x);
    assert Run(EmptyDb, ops[..n]).spent[x] == ops[k].now;
  }

  lemma FirstSpendNow(ops: seq<Op>, n: nat, x: LeafId)
    requires n < |ops| && x !in Run(EmptyDb, ops[..n]).spent && x in Run(EmptyDb, ops[..n + 1]).spent
    ensures FirstSpend(ops, n + 1, n, x)
  {
    MarkerChangeAt(ops, n, x);
  }

  /** In every reachable state a marker carries the time of the first spend since the leaf last had none, however
      often the leaf has been spent since. */
  lemma {:induction false} MarkerIsFirstSpend(ops: seq<Op>, n: nat, x: LeafId)
    requires n <= |ops| && x in Run(EmptyDb, ops[..n]).spent
    ensures exists k: nat :: k < n && FirstSpend(ops, n, k, x)
  {
    assert n > 0;
    if x in Run(EmptyDb, ops[..n - 1]).spent {
      MarkerIsFirstSpend(ops, n - 1, x);
      var k: nat :| k < n - 1 && FirstSpend(ops, n - 1, k, x);
      FirstSpendOneMore(ops, n - 1, k, x);
    } else {
      FirstSpendNow(ops, n - 1, x);
    }
  }

  lemma {:induction false} MarkerSurvives(db: TreeDb, ops: seq<Op>, x: LeafId)
    requires x in db.spent
    requires forall op :: op in ops ==>
               && x !in WrittenBy(op)
               && (op.SetOp? ==> op.start <= db.spent[x] + SPENT_MARKER_CLEANUP_THRESHOLD_MS)
    ensures x in Run(db, ops).spent && Run(db, ops).spent[x] == db.spent[x]
  {
    if ops != [] {
      var prefix := ops[..|ops| - 1];
      MarkerSurvives(db, prefix, x);
      MarkerStep(Run(db, prefix), ops[|ops| - 1], x);
    }
  }

  /** Which steps can insert a leaf they do not write by name: a committed refresh that lists it
      while no marker at or after the refresh start protects it. */
  lemma WhoInserts(db: TreeDb, op: Op, x: LeafId)
    requires x !in db.leaves && x !in WrittenBy(op)
    ensures x in Step(db, op).leaves
       <==> && op.SetOp? && RefreshCommits(db, op.start, op.reported, op.missing)
            && x in Ids(op.reported) + Ids(op.missing)
            && !(x in db.spent && db.spent[x] >= op.start)
  {
    if op.SetOp? {
      var recent := RecentlySpent(db, op.start);
      IdsWithout(op.reported, recent);
      IdsWithout(op.missing, recent);
    }
  }

  lemma IdsWithout(nodes: seq<TreeNode>, skip: set<LeafId>)
    ensures Ids(Without(nodes, skip)) == Ids(nodes) - skip
  {
    WithoutMembers(nodes, skip);
  }

  lemma KeptAre(db: TreeDb, start: Time)
    ensures KeptByRefresh(db, start)
         == (set l | l in db.leaves && db.leaves[l].reservation.Some?)
            + (set l | l in db.leaves && db.leaves[l].reservation.None? && db.leaves[l].addedAt >= start)
  {
  }

  lemma RefreshedRowsAre(db: TreeDb, now: Time, start: Time, good: map<LeafId, TreeNode>, bad: map<LeafId, TreeNode>)
    ensures var rows := RefreshedRows(db, now, start, good, bad);
            && rows.Keys == KeptByRefresh(db, start) + (good.Keys + bad.Keys)
            && (forall l :: l in rows ==> rows[l].reservation == SurvivingReservation(db, now, l))
            && (forall l :: l in rows && l !in good && l !in bad ==>
                  l in db.leaves && rows[l].(reservation := None) == db.leaves[l].(reservation := None))
            && (forall l :: l in good.Keys + bad.Keys ==> rows[l].addedAt == now)
  {
  }

  /** A committed refresh, row by row: all reserved leaves stay, with those of timed-out reservations now
      free; free leaves stay if added since the refresh started; listed leaves come in unless recently spent. */
  lemma RefreshExactly(db: TreeDb, op: Op)
    requires op.SetOp? && RefreshCommits(db, op.start, op.reported, op.missing)
    ensures var after := Step(db, op);
            var listed := Ids(op.reported) + Ids(op.missing) - RecentlySpent(db, op.start);
            && after.leaves.Keys
               == (set l | l in db.leaves && db.leaves[l].reservation.Some?)
                  + (set l | l in db.leaves && db.leaves[l].reservation.None? && db.leaves[l].addedAt >= op.start)
                  + listed
            && (forall l :: l in after.leaves ==> after.leaves[l].reservation == SurvivingReservation(db, op.now, l))
            && (forall l :: l in after.leaves && l !in listed ==>
                  l in db.leaves && after.leaves[l].(reservation := None) == db.leaves[l].(reservation := None))
            && (forall l :: l in listed ==> after.leaves[l].addedAt == op.now)
            && after.reservations == db.reservations - Stale(db, op.now)
  {
    var recent := RecentlySpent(db, op.start);
    IdsWithout(op.reported, recent);
    IdsWithout(op.missing, recent);
    KeptAre(db, op.start);
    var good, bad := ById(Without(op.reported, recent)), ById(Without(op.missing, recent));
    RefreshedRowsAre(db, op.now, op.start, good, bad);
    assert Step(db, op).leaves == RefreshedRows(db, op.now, op.start, good, bad);
    assert good.Keys + bad.Keys == Ids(op.reported) + Ids(op.missing) - recent;
  }

  lemma {:induction false} StaysAbsent(db: TreeDb, ops: seq<Op>, x: LeafId)
    requires x !in db.leaves && x in db.spent
    requires forall op :: op in ops ==> x !in WrittenBy(op) && (op.SetOp? ==> op.start <= db.spent[x])
    ensures x !in Run(db, ops).leaves
  {
    if ops != [] {
      var prefix := ops[..|ops| - 1];
      StaysAbsent(db, prefix, x);
      MarkerSurvives(db, prefix, x);
      WhoInserts(Run(db, prefix), ops[|ops| - 1], x);
    }
  }

  /** No resurrection: a leaf spent at `spend.now` with no older marker is never inserted by a refresh that
      started no later, whatever else happens in between, as long as nothing writes the leaf by name and the
      refreshes in between started at most five minutes after the spend. If all of them started no later
      than the spend, the leaf never reappears at all. */
  lemma NoResurrection(db: TreeDb, spend: Op, ops: seq<Op>, x: LeafId)
    requires Spends(db, spend, x)
    requires x in db.spent ==> db.spent[x] >= spend.now
    requires forall op :: op in ops ==>
               && x !in WrittenBy(op)
               && (op.SetOp? ==> op.start <= spend.now + SPENT_MARKER_CLEANUP_THRESHOLD_MS)
    ensures forall i :: 0 <= i < |ops| && ops[i].SetOp? && ops[i].start <= spend.now ==>
              x in Run(Step(db, spend), ops[..i + 1]).leaves ==> x in Run(Step(db, spend), ops[..i]).leaves
    ensures (forall op :: op in ops && op.SetOp? ==> op.start <= spend.now) ==>
              forall i :: 0 <= i <= |ops| ==> x !in Run(Step(db, spend), ops[..i]).leaves
  {
    var mid := Step(db, spend);
    SpendMarks(db, spend, x);
    forall i | 0 <= i < |ops| && ops[i].SetOp? && ops[i].start <= spend.now
      ensures x in Run(mid, ops[..i + 1]).leaves ==> x in Run(mid, ops[..i]).leaves
    {
      MarkerSurvives(mid, ops[..i], x);
      RunOneMore(mid, ops, i);
      if x !in Run(mid, ops[..i]).leaves {
        WhoInserts(Run(mid, ops[..i]), ops[i], x);
      }
    }
    if forall op :: op in ops && op.SetOp? ==> op.start <= spend.now {
      forall i | 0 <= i <= |ops| ensures x !in Run(mid, ops[..i]).leaves {
        StaysAbsent(mid, ops[..i], x);
      }
    }
  }

  /** After a spend and any refreshes started no later than the marker it left, the next committed refresh that lists
      the leaf brings it back if and only if it started after that marker. With an older marker in place the bound is
      the older time, not the time of the spend. */
  lemma NextListingDecides(db: TreeDb, spend: Op, ops: seq<Op>, last: Op, x: LeafId)
    requires Spends(db, spend, x)
    requires var m := MarkerTime(db, x, spend.now);
             forall op :: op in ops ==> x !in WrittenBy(op) && (op.SetOp? ==> op.start <= m)
    requires last.SetOp? && x in Ids(last.reported) + Ids(last.missing)
    requires RefreshCommits(Run(Step(db, spend), ops), last.start, last.reported, last.missing)
    ensures x in Step(Run(Step(db, spend), ops), last).leaves <==> MarkerTime(db, x, spend.now) < last.start
  {
    SpendMarks(db, spend, x);
    var mid := Step(db, spend);
    MarkerSurvives(mid, ops, x);
    StaysAbsent(mid, ops, x);
    WhoInserts(Run(mid, ops), last, x);
  }

  /* ---------- when exactly does a spent leaf come back? ---------- */

  /** Operation i of the run is a refresh that commits. */
  ghost predicate CommitsAt(db: TreeDb, ops: seq<Op>, i: nat)
    requires i < |ops|
  {
    ops[i].SetOp? && RefreshCommits(Run(db, ops[..i]), ops[i].start, ops[i].reported, ops[i].missing)
  }

  /** Before operation n, a refresh committed that started more than five minutes after m. */
  ghost predicate Cleared(db: TreeDb, ops: seq<Op>, n: nat, m: Time)
    requires n <= |ops|
  {
    exists j :: 0 <= j < n && CommitsAt(db, ops, j) && ops[j].start > m + SPENT_MARKER_CLEANUP_THRESHOLD_MS
  }

  /** Operation i is a refresh that commits and lists x, and it started after the marker m or finds it cleared. */
  ghost predicate Revives(db: TreeDb, ops: seq<Op>, i: nat, x: LeafId, m: Time)
    requires i < |ops|
  {
    && CommitsAt(db, ops, i) && x in Ids(ops[i].reported) + Ids(ops[i].missing)
    && (ops[i].start > m || Cleared(db, ops, i, m))
  }

  lemma AbsentMarkerStep(db: TreeDb, op: Op, x: LeafId)
    requires x !in db.leaves && x !in WrittenBy(op)
    ensures x in Step(db, op).spent
       <==> x in db.spent && !(op.SetOp? && RefreshCommits(db, op.start, op.reported, op.missing)
                               && op.start > db.spent[x] + SPENT_MARKER_CLEANUP_THRESHOLD_MS)
    ensures x in Step(db, op).spent ==> Step(db, op).spent[x] == db.spent[x]
  {
  }

  /** The leaf is absent before every operation up to n. */
  ghost predicate AbsentUpTo(db: TreeDb, ops: seq<Op>, n: nat, x: LeafId)
    requires n <= |ops|
  {
    forall k :: 0 <= k <= n ==> x !in Run(db, ops[..k]).leaves
  }

  lemma AbsentOneMore(db: TreeDb, ops: seq<Op>, n: nat, x: LeafId)
    requires n < |ops|
    ensures AbsentUpTo(db, ops, n + 1, x) <==> AbsentUpTo(db, ops, n, x) && x !in Run(db, ops[..n + 1]).leaves
  {
  }

  lemma ClearedOneMore(db: TreeDb, ops: seq<Op>, n: nat, m: Time)
    requires n < |ops|
    ensures Cleared(db, ops, n + 1, m)
       <==> Cleared(db, ops, n, m)
            || (CommitsAt(db, ops, n) && ops[n].start > m + SPENT_MARKER_CLEANUP_THRESHOLD_MS)
  {
  }

  lemma MarkerOneMore(db: TreeDb, ops: seq<Op>, n: nat, x: LeafId, m: Time)
    requires n < |ops| && x !in Run(db, ops[..n]).leaves && x !in WrittenBy(ops[n])
    requires x in Run(db, ops[..n]).spent ==> Run(db, ops[..n]).spent[x] == m
    ensures var after := Run(db, ops[..n + 1]);
            && (x in after.spent <==>
                  x in Run(db, ops[..n]).spent
                  && !(CommitsAt(db, ops, n) && ops[n].start > m + SPENT_MARKER_CLEANUP_THRESHOLD_MS))
            && (x in after.spent ==> after.spent[x] == m)
  {
    RunOneMore(db, ops, n);
    AbsentMarkerStep(Run(db, ops[..n]), ops[n], x);
  }

  /** While the leaf is absent, its marker is there until it is cleared, and never moves. */
  lemma {:induction false} MarkerUntilCleared(db: TreeDb, ops: seq<Op>, n: nat, x: LeafId, m: Time)
    requires n <= |ops| && AbsentUpTo(db, ops, n, x) && x in db.spent && db.spent[x] == m
    requires forall op :: op in ops ==> x !in WrittenBy(op)
    ensures x in Run(db, ops[..n]).spent <==> !Cleared(db, ops, n, m)
    ensures x in Run(db, ops[..n]).spent ==> Run(db, ops[..n]).spent[x] == m
  {
    if n == 0 {
      assert ops[..0] == [];
    } else {
      AbsentOneMore(db, ops, n - 1, x);
      MarkerUntilCleared(db, ops, n - 1, x, m);
      ClearedOneMore(db, ops, n - 1, m);
      assert ops[n - 1] in ops && x !in Run(db, ops[..n - 1]).leaves;
      MarkerOneMore(db, ops, n - 1, x, m);
    }
  }

  /** The leaf comes back with operation n if and only if that operation revives it. */
  lemma BackWithOperation(db: TreeDb, ops: seq<Op>, n: nat, x: LeafId, m: Time)
    requires n < |ops| && AbsentUpTo(db, ops, n, x) && x in db.spent && db.spent[x] == m
    requires forall op :: op in ops ==> x !in WrittenBy(op)
    ensures x in Run(db, ops[..n + 1]).leaves <==> Revives(db, ops, n, x, m)
  {
    MarkerUntilCleared(db, ops, n, x, m);
    RunOneMore(db, ops, n);
    assert ops[n] in ops && x !in Run(db, ops[..n]).leaves;
    WhoInserts(Run(db, ops[..n]), ops[n], x);
  }

  ghost predicate NothingRevives(db: TreeDb, ops: seq<Op>, n: nat, x: LeafId, m: Time)
    requires n <= |ops|
  {
    forall i :: 0 <= i < n ==> !Revives(db, ops, i, x, m)
  }

  lemma NothingOneMore(db: TreeDb, ops: seq<Op>, n: nat, x: LeafId, m: Time)
    requires n < |ops|
    ensures NothingRevives(db, ops, n + 1, x, m) <==> NothingRevives(db, ops, n, x, m) && !Revives(db, ops, n, x, m)
  {
  }

  lemma {:induction false} AbsentUntilRevived(db: TreeDb, ops: seq<Op>, n: nat, x: LeafId, m: Time)
    requires n <= |ops| && x !in db.leaves && x in db.spent && db.spent[x] == m
    requires forall op :: op in ops ==> x !in WrittenBy(op)
    ensures AbsentUpTo(db, ops, n, x) <==> NothingRevives(db, ops, n, x, m)
  {
    if n == 0 {
      assert ops[..0] == [];
    } else {
      AbsentUntilRevived(db, ops, n - 1, x, m);
      AbsentOneMore(db, ops, n - 1, x);
      NothingOneMore(db, ops, n - 1, x, m);
      if AbsentUpTo(db, ops, n - 1, x) {
        BackWithOperation(db, ops, n - 1, x, m);
      }
    }
  }

  /** The exact condition, over whole runs. As long as nothing writes the leaf by name, a spent leaf stays away for
      ever if and only if no committed refresh that lists it started after the marker the spend left or follows a
      committed refresh that started more than five minutes after that marker. With an older marker in place the
      bound is the older time, not the time of the spend. */
  lemma ResurrectionExactly(db: TreeDb, spend: Op, ops: seq<Op>, x: LeafId)
    requires Spends(db, spend, x)
    requires forall op :: op in ops ==> x !in WrittenBy(op)
    ensures var mid, m := Step(db, spend), MarkerTime(db, x, spend.now);
            AbsentUpTo(mid, ops, |ops|, x) <==> NothingRevives(mid, ops, |ops|, x, m)
  {
    SpendMarks(db, spend, x);
    AbsentUntilRevived(Step(db, spend), ops, |ops|, x, MarkerTime(db, x, spend.now));
  }

  /* ---------- new leaves are not lost ---------- */

  /** `op` cannot endanger leaf `l` stored at or after `b`: as a refresh it started no later than `b`, and if it
      writes or lists the leaf, its time is not before `b`. */
  predicate Harmless(op: Op, l: LeafId, b: Time) {
    match op
    case AddOp(now, nodes) => l in Ids(nodes) ==> now >= b
    case SetOp(now, reported, missing, start) => start <= b && (l in Ids(reported) + Ids(missing) ==> now >= b)
    case UpdateOp(now, _, reserved, change) => l in Ids(reserved) + Ids(change) ==> now >= b
    case FinalizeOp(now, _, newLeaves) => newLeaves.Some? && l in Ids(newLeaves.value) ==> now >= b
    case ReserveOp(_, _, _, _, _, _) => true
    case CancelOp(_) => true
  }

  lemma AdditionKept(db: TreeDb, op: Op, l: LeafId, b: Time)
    requires l in db.leaves && db.leaves[l].addedAt >= b
    requires Harmless(op, l, b) && !Consumes(db, op, l)
    ensures l in Step(db, op).leaves && Step(db, op).leaves[l].addedAt >= b
  {
    if op.SetOp? && RefreshCommits(db, op.start, op.reported, op.missing) {
      RefreshExactly(db, op);
      assert l in KeptByRefresh(db, op.start);
      assert l !in Ids(op.reported) + Ids(op.missing) - RecentlySpent(db, op.start) ==>
          Step(db, op).leaves[l].(reservation := None) == db.leaves[l].(reservation := None);
    }
  }

  /** A leaf stored at or after time `b` outlives any refreshes that started no later than `b`, until the reservation
      holding it is finalized or updated. Writes of other leaves are free; a write of this one carries a time not
      before `b`. */
  lemma {:induction false} AdditionNotLost(db: TreeDb, ops: seq<Op>, l: LeafId, b: Time)
    requires l in db.leaves && db.leaves[l].addedAt >= b
    requires forall op :: op in ops ==> Harmless(op, l, b)
    requires forall i :: 0 <= i < |ops| ==> !Consumes(Run(db, ops[..i]), ops[i], l)
    ensures l in Run(db, ops).leaves && Run(db, ops).leaves[l].addedAt >= b
  {
    if ops != [] {
      var k := |ops| - 1;
      var prefix := ops[..k];
      forall i | 0 <= i < k ensures !Consumes(Run(db, prefix[..i]), prefix[i], l) {
        assert prefix[..i] == ops[..i];
      }
      AdditionNotLost(db, prefix, l, b);
      AdditionKept(Run(db, prefix), ops[k], l, b);
    }
  }
}
