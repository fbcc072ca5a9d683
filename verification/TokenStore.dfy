/** The PostgreSQL token output store, statement by statement (crates/spark-postgres/src/token_store.rs). */
module TokenStore {
  import opened Prelude
  import opened TokenSelection
  import opened Tables = TokenTables

  class PostgresTokenStore {
    var metadata: map<TokenId, TokenMetadata>
    var outputs: map<OutputId, OutputRow>
    var reservations: map<ReservationId, ReservationRow>
    var spent: map<OutputId, Time>
    var lastCompletedAt: Option<Time>

    function Contents(): TokenDb
      reads this
    {
      TokenDb(metadata, outputs, reservations, spent, lastCompletedAt)
    }

    constructor ()
      ensures Contents() == EmptyTokenDb
    {
      metadata, outputs, reservations, spent, lastCompletedAt := map[], map[], map[], map[], None;
    }

    method SetTokensOutputs(now: Time, order: seq<OutputId>, incoming: seq<TokenOutputs>, start: Time)
      requires Consistent(Contents()) && Lists(order, outputs)
      modifies this
      ensures Contents() == Tables.SetTokensOutputs(old(Contents()), now, incoming, start)
    {
      var hasActiveSwap := exists r :: r in reservations && reservations[r].purpose == Swap;
      if hasActiveSwap || (lastCompletedAt.Some? && lastCompletedAt.value >= start) {
        return;
      }
      Refresh(now, order, incoming, start);
    }

    /** The reconciliation of a refresh that is not blocked. */
    method Refresh(now: Time, order: seq<OutputId>, incoming: seq<TokenOutputs>, start: Time)
      requires Consistent(Contents()) && Lists(order, outputs)
      modifies this
      ensures Contents() == Refreshed(old(Contents()), now, incoming, start)
    {
      var ids := IncomingIds(incoming);
      var spentIds := CleanupSpent(start);
      var lostReservations, lostOutputs := FindInvalid(order, ids);
      ghost var before := old(Contents());
      Reconcile(start, ids, lostReservations, lostOutputs);
      assert outputs == KeptRows(before.outputs, start, ids) && reservations == KeptReservations(before, ids);
      var reservedIds := set o | o in outputs && outputs[o].reservation.Some?;
      SkipReserved(outputs, IncomingRows(incoming, now), reservedIds, spentIds);
      metadata := WithoutOrphans(metadata, outputs);
      InsertIncoming(now, incoming, reservedIds + spentIds);
    }

    /** Drops the markers past the threshold and reads those the refresh must respect. */
    method CleanupSpent(start: Time) returns (recent: set<OutputId>)
      modifies this`spent
      ensures spent == map o | o in old(spent) && old(spent)[o] >= start - SPENT_MARKER_CLEANUP_THRESHOLD_MS
                         :: old(spent)[o]
      ensures recent == RecentlySpent(old(Contents()), start)
    {
      spent := map o | o in spent && spent[o] >= start - SPENT_MARKER_CLEANUP_THRESHOLD_MS :: spent[o];
      recent := set o | o in spent && spent[o] >= start;
    }

    method FindInvalid(order: seq<OutputId>, ids: set<OutputId>)
      returns (lostReservations: set<ReservationId>, lostOutputs: set<OutputId>)
      requires Consistent(Contents()) && Lists(order, outputs)
      ensures lostReservations == LostReservations(Contents(), ids)
      ensures lostOutputs == LostOutputs(outputs, ids)
    {
      var groups := GroupByReservation(outputs, order);
      lostReservations, lostOutputs := FindLost(groups, ids);
      GroupsLose(Contents(), order, groups, ids, lostReservations, lostOutputs);
    }

    /** The two deletes of the reconciliation, and the sweep of empty reservations after the second. */
    method Reconcile(start: Time, ghost ids: set<OutputId>,
                     lostReservations: set<ReservationId>, lostOutputs: set<OutputId>)
      requires Consistent(Contents())
      requires lostReservations == LostReservations(Contents(), ids) && lostOutputs == LostOutputs(outputs, ids)
      modifies this`outputs, this`reservations
      ensures outputs == KeptRows(old(outputs), start, ids)
      ensures reservations == KeptReservations(old(Contents()), ids)
    {
      ghost var before := Contents();
      outputs := DeleteOldFree(outputs, start);
      if lostReservations != {} {
        outputs := DeleteHeldBy(outputs, lostReservations);
        reservations := reservations - lostReservations;
      }
      assert outputs == DeleteHeldBy(DeleteOldFree(before.outputs, start), lostReservations);
      assert reservations == before.reservations - lostReservations;
      DeletesKeep(before, start, ids);
      if lostOutputs != {} {
        outputs := outputs - lostOutputs;
        var empty := set r | r in reservations && !exists o :: o in outputs && outputs[o].reservation == Some(r);
        SweepFindsEmpty(before, start, ids, empty);
        reservations := reservations - empty;
      }
    }

    /** Reserved outputs grouped by reservation. */
    static method GroupByReservation(outputs: map<OutputId, OutputRow>, order: seq<OutputId>)
      returns (groups: map<ReservationId, seq<OutputId>>)
      requires Lists(order, outputs)
      ensures forall r :: r in groups <==> HeldBy(outputs, r) != {}
      ensures forall r :: r in groups ==> forall o :: o in groups[r] <==> o in HeldBy(outputs, r)
    {
      groups := map[];
      for i := 0 to |order|
        invariant forall r :: Group(groups, r) == InGroup(outputs, order[..i], r)
        invariant forall r :: r in groups ==> groups[r] != []
      {
        var o := order[i];
        assert o in order;
        ghost var before := groups;
        if outputs[o].reservation.Some? {
          var r := outputs[o].reservation.value;
          groups := groups[r := (if r in groups then groups[r] else []) + [o]];
        }
        forall r ensures Group(groups, r) == InGroup(outputs, order[..i + 1], r) {
          InGroupStep(outputs, order, i, r);
          assert Group(before, r) == InGroup(outputs, order[..i], r);
        }
      }
      assert order[..|order|] == order;
      forall r ensures r in groups <==> HeldBy(outputs, r) != {}
               ensures r in groups ==> forall o :: o in groups[r] <==> o in HeldBy(outputs, r)
      {
        InGroupAre(outputs, order, r);
        assert Group(groups, r) == InGroup(outputs, order, r);
        assert Group(groups, r) != [] ==> Group(groups, r)[0] in HeldBy(outputs, r);
      }
    }

    /** Reservations without a valid output, and the invalid outputs of the others. */
    static method FindLost(groups: map<ReservationId, seq<OutputId>>, ids: set<OutputId>)
      returns (reservations: set<ReservationId>, outputs: set<OutputId>)
      ensures reservations == set r | r in groups && forall o :: o in groups[r] ==> o !in ids
      ensures forall o :: o in outputs <==>
                exists r :: r in groups && o in groups[r] && o !in ids && exists v :: v in groups[r] && v in ids
    {
      reservations, outputs := {}, {};
      var todo := groups.Keys;
      while todo != {}
        invariant todo <= groups.Keys
        invariant reservations == set r | r in groups.Keys - todo && forall o :: o in groups[r] ==> o !in ids
        invariant forall o :: o in outputs <==>
                    exists r :: r in groups.Keys - todo && o in groups[r] && o !in ids
                                && exists v :: v in groups[r] && v in ids
      {
        var r :| r in todo;
        if forall o :: o in groups[r] ==> o !in ids {
          reservations := reservations + {r};
        } else {
          outputs := outputs + set o | o in groups[r] && o !in ids;
        }
        todo := todo - {r};
      }
    }

    method InsertIncoming(now: Time, incoming: seq<TokenOutputs>, skip: set<OutputId>)
      modifies this`metadata, this`outputs
      ensures metadata == old(metadata) + MetadataOf(incoming)
      ensures outputs == Inserted(old(outputs), IncomingRows(incoming, now), skip)
    {
      ghost var names: map<TokenId, TokenMetadata>, rows: map<OutputId, OutputRow> := map[], map[];
      for i := 0 to |incoming|
        invariant names == MetadataOf(incoming[..i]) && rows == IncomingRows(incoming[..i], now)
        invariant metadata == old(metadata) + names
        invariant outputs == Inserted(old(outputs), rows, skip)
      {
        var to := incoming[i];
        metadata := metadata[to.metadata.identifier := to.metadata];
        InsertOutputs(now, to.metadata.identifier, to.outputs, skip);
        UpsertLast(old(metadata), names, to.metadata);
        ghost var more := RowsOf(to.metadata.identifier, to.outputs, now);
        InsertTwice(old(outputs), rows, more, skip);
        IncomingStep(incoming, i, now);
        assert outputs == Inserted(old(outputs), more + rows, skip);
        names, rows := names[to.metadata.identifier := to.metadata], more + rows;
      }
      assert incoming[..|incoming|] == incoming;
    }

    method InsertOutputs(now: Time, token: TokenId, batch: seq<TokenOutput>, skip: set<OutputId>)
      modifies this`outputs
      ensures outputs == Inserted(old(outputs), RowsOf(token, batch, now), skip)
    {
      for i := 0 to |batch|
        invariant outputs == Inserted(old(outputs), RowsOf(token, batch[..i], now), skip)
      {
        var output := batch[i];
        assert batch[..i + 1][..i] == batch[..i];
        if output.id in skip {
          continue;
        }
        if output.id !in outputs {
          outputs := outputs[output.id := OutputRow(token, output, None, now)];
        }
      }
      assert batch[..|batch|] == batch;
    }

    method InsertTokenOutputs(now: Time, to: TokenOutputs)
      modifies this
      ensures Contents() == Tables.InsertTokenOutputs(old(Contents()), now, to)
    {
      metadata := metadata[to.metadata.identifier := to.metadata];
      var ids := Ids(to.outputs);
      if ids != {} {
        spent := spent - ids;
      }
      InsertOutputs(now, to.metadata.identifier, to.outputs, {});
    }

    method ReserveTokenOutputs(now: Time, order: seq<OutputId>, id: ReservationId, q: Request)
      returns (r: Result<TokenOutputs, TokenError>)
      modifies this
      ensures r == ReserveAnswer(old(Contents()), order, id, q)
      ensures Contents() == Tables.Reserve(old(Contents()), now, order, id, q)
    {
      if ZeroRequest(q.target) {
        return Err(ZeroTarget);
      }
      if q.token !in metadata {
        return Err(TokenNotFound);
      }
      var candidates := Candidates(outputs, order, q.token, q.preferred);
      var selected := SelectOutputs(candidates, q.target, q.strategy);
      if selected.Err? {
        return Err(selected.error);
      }
      if id in reservations {
        return Err(DatabaseError);
      }
      reservations := reservations[id := ReservationRow(q.purpose, now)];
      outputs := Assigned(outputs, Ids(selected.value), id);
      return Ok(TokenOutputs(metadata[q.token], selected.value));
    }

    method CancelReservation(id: ReservationId)
      modifies this
      ensures Contents() == Tables.Cancel(old(Contents()), id)
    {
      outputs := Released(outputs, {id});
      reservations := reservations - {id};
    }

    method FinalizeReservation(now: Time, id: ReservationId)
      modifies this
      ensures Contents() == Tables.Finalize(old(Contents()), now, id)
    {
      if id !in reservations {
        return;
      }
      var isSwap := reservations[id].purpose == Swap;
      var held := HeldBy(outputs, id);
      if held != {} {
        spent := map o | o in spent.Keys + held :: if o in spent then spent[o] else now;
      }
      outputs := outputs - held;
      reservations := reservations - {id};
      if isSwap {
        lastCompletedAt := Some(now);
      }
      metadata := WithoutOrphans(metadata, outputs);
    }
  }

  /* ---------- the reconciliation refines the set expressions ---------- */

  lemma GroupsLose(db: TokenDb, order: seq<OutputId>, groups: map<ReservationId, seq<OutputId>>, ids: set<OutputId>,
                   lostReservations: set<ReservationId>, lostOutputs: set<OutputId>)
    requires Consistent(db)
    requires forall r :: r in groups <==> HeldBy(db.outputs, r) != {}
    requires forall r :: r in groups ==> forall o :: o in groups[r] <==> o in HeldBy(db.outputs, r)
    requires lostReservations == set r | r in groups && forall o :: o in groups[r] ==> o !in ids
    requires forall o :: o in lostOutputs <==>
               exists r :: r in groups && o in groups[r] && o !in ids && exists v :: v in groups[r] && v in ids
    ensures lostReservations == LostReservations(db, ids)
    ensures lostOutputs == LostOutputs(db.outputs, ids)
  {
    forall r ensures r in lostReservations <==> r in LostReservations(db, ids) {
      if r in groups {
        var o :| o in HeldBy(db.outputs, r);
      }
    }
    forall o ensures o in lostOutputs <==> o in LostOutputs(db.outputs, ids) {
      if o in LostOutputs(db.outputs, ids) {
        var r := db.outputs[o].reservation.value;
        assert o in HeldBy(db.outputs, r) && r in groups;
        var v :| v in HeldBy(db.outputs, r) && v in ids;
        assert v in groups[r] && o in groups[r];
      }
    }
  }

  function Group(groups: map<ReservationId, seq<OutputId>>, r: ReservationId): seq<OutputId> {
    if r in groups then groups[r] else []
  }

  /** The outputs of one reservation in row order. */
  function InGroup(outputs: map<OutputId, OutputRow>, order: seq<OutputId>, r: ReservationId): seq<OutputId> {
    if order == [] then []
    else
      var o := order[|order| - 1];
      var before := InGroup(outputs, order[..|order| - 1], r);
      if o in outputs && outputs[o].reservation == Some(r) then before + [o] else before
  }

  lemma InGroupStep(outputs: map<OutputId, OutputRow>, order: seq<OutputId>, i: nat, r: ReservationId)
    requires i < |order| && order[i] in outputs
    ensures InGroup(outputs, order[..i + 1], r)
         == InGroup(outputs, order[..i], r) + if outputs[order[i]].reservation == Some(r) then [order[i]] else []
  {
    assert order[..i + 1][..i] == order[..i];
  }

  lemma {:induction false} InGroupAre(outputs: map<OutputId, OutputRow>, order: seq<OutputId>, r: ReservationId)
    ensures forall o :: o in InGroup(outputs, order, r) <==> o in order && o in HeldBy(outputs, r)
  {
    if order != [] {
      var k := |order| - 1;
      InGroupAre(outputs, order[..k], r);
      assert order == order[..k] + [order[k]];
    }
  }

  lemma SkipReserved(rows: map<OutputId, OutputRow>, more: map<OutputId, OutputRow>, reserved: set<OutputId>,
                     spent: set<OutputId>)
    requires reserved <= rows.Keys
    ensures Inserted(rows, more, reserved + spent) == Inserted(rows, more, spent)
  {
  }

  function DeleteOldFree(outputs: map<OutputId, OutputRow>, start: Time): map<OutputId, OutputRow> {
    map o | o in outputs && !(outputs[o].reservation.None? && outputs[o].addedAt < start) :: outputs[o]
  }

  function DeleteHeldBy(outputs: map<OutputId, OutputRow>, gone: set<ReservationId>): map<OutputId, OutputRow> {
    map o | o in outputs && !(outputs[o].reservation.Some? && outputs[o].reservation.value in gone) :: outputs[o]
  }

  lemma DeletesKeep(db: TokenDb, start: Time, ids: set<OutputId>)
    requires Consistent(db)
    ensures DeleteHeldBy(DeleteOldFree(db.outputs, start), LostReservations(db, ids)) - LostOutputs(db.outputs, ids)
         == KeptRows(db.outputs, start, ids)
    ensures LostOutputs(db.outputs, ids) == {} ==>
              DeleteHeldBy(DeleteOldFree(db.outputs, start), LostReservations(db, ids))
              == KeptRows(db.outputs, start, ids)
  {
    forall o | o in db.outputs && db.outputs[o].reservation.Some?
      ensures o in ids
         <==> db.outputs[o].reservation.value !in LostReservations(db, ids) && o !in LostOutputs(db.outputs, ids)
    {
      assert o in HeldBy(db.outputs, db.outputs[o].reservation.value);
    }
    var left := DeleteHeldBy(DeleteOldFree(db.outputs, start), LostReservations(db, ids));
    assert left - {} == left;
  }

  /** After the deletes the reservations without outputs are those that never had any. */
  lemma SweepFindsEmpty(db: TokenDb, start: Time, ids: set<OutputId>, empty: set<ReservationId>)
    requires Consistent(db)
    requires var kept := KeptRows(db.outputs, start, ids);
             empty == set r | r in db.reservations - LostReservations(db, ids)
                              && !exists o :: o in kept && kept[o].reservation == Some(r)
    ensures empty == EmptyReservations(db)
  {
    var kept := KeptRows(db.outputs, start, ids);
    forall r | r in db.reservations - LostReservations(db, ids)
      ensures HeldBy(db.outputs, r) == {} <==> !exists o :: o in kept && kept[o].reservation == Some(r)
    {
      if HeldBy(db.outputs, r) != {} {
        var o :| o in HeldBy(db.outputs, r) && o in ids;
        assert o in kept && kept[o].reservation == Some(r);
      }
      forall o | o in kept && kept[o].reservation == Some(r) ensures o in HeldBy(db.outputs, r) {}
    }
  }

  lemma UpsertLast(metadata: map<TokenId, TokenMetadata>, names: map<TokenId, TokenMetadata>, m: TokenMetadata)
    ensures (metadata + names)[m.identifier := m] == metadata + names[m.identifier := m]
  {
  }

  lemma InsertTwice(rows: map<OutputId, OutputRow>, a: map<OutputId, OutputRow>, b: map<OutputId, OutputRow>,
                    skip: set<OutputId>)
    ensures Inserted(Inserted(rows, a, skip), b, skip) == Inserted(rows, b + a, skip)
  {
  }
}
