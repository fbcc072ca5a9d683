/** What each operation of the token output store does: the tables after it against those before, row by row, without
    the functions that update them (crates/spark-postgres/src/token_store.rs). */
module TokenEffects {
  import opened Prelude
  import opened TokenSelection
  import opened TokenTables
  import opened TokenRuns

  function Holder(db: TokenDb, o: OutputId): Option<ReservationId> {
    if o in db.outputs then db.outputs[o].reservation else None
  }

  /* ---------- set_tokens_outputs ---------- */

  /** A refresh is turned away while a swap reservation lives, or when a swap completed at or after its start. */
  predicate TurnedAway(db: TokenDb, start: Time) {
    || (exists r :: r in db.reservations && db.reservations[r].purpose == Swap)
    || (db.lastCompletedAt.Some? && db.lastCompletedAt.value >= start)
  }

  predicate SpentSince(db: TokenDb, start: Time, o: OutputId) { o in db.spent && db.spent[o] >= start }

  predicate Reports(incoming: seq<TokenOutputs>, o: OutputId) {
    exists to, c :: to in incoming && c in to.outputs && c.id == o
  }

  /** A refresh that is turned away changes nothing; every other one is carried out. */
  lemma RefreshTurnedAway(db: TokenDb, op: Op)
    requires op.SetOp?
    ensures TurnedAway(db, op.start) <==> RefreshBlocked(db, op.start)
    ensures TurnedAway(db, op.start) ==> Step(db, op) == db
  {
  }

  /** A row that was there: it stays as it is if it is reserved and reported, or free and added since the start. */
  predicate Stays(db: TokenDb, op: Op, o: OutputId)
    requires op.SetOp?
  {
    && o in db.outputs
    && if db.outputs[o].reservation.Some? then Reports(op.incoming, o) else db.outputs[o].addedAt >= op.start
  }

  lemma ReportsAre(incoming: seq<TokenOutputs>, o: OutputId)
    ensures Reports(incoming, o) <==> o in IncomingIds(incoming)
  {
  }

  /** The rows after a refresh: those that stay, unchanged, and the reported ones not spent since the start. */
  lemma RefreshOutcome(db: TokenDb, op: Op, o: OutputId)
    requires Consistent(db) && op.SetOp? && !TurnedAway(db, op.start)
    ensures o in Step(db, op).outputs <==> Stays(db, op, o) || (Reports(op.incoming, o) && !SpentSince(db, op.start, o))
    ensures Stays(db, op, o) ==> Step(db, op).outputs[o] == db.outputs[o]
  {
    ReportsAre(op.incoming, o);
    IncomingRowsAre(op.incoming, op.now);
  }

  /** Output j of entry i is the first one reported with its id. */
  predicate FirstReport(incoming: seq<TokenOutputs>, i: nat, j: nat) {
    && i < |incoming| && j < |incoming[i].outputs|
    && (forall k :: 0 <= k < j ==> incoming[i].outputs[k].id != incoming[i].outputs[j].id)
    && (forall h, k :: 0 <= h < i && 0 <= k < |incoming[h].outputs| ==>
          incoming[h].outputs[k].id != incoming[i].outputs[j].id)
  }

  lemma {:induction false} FirstInBatch(token: TokenId, outputs: seq<TokenOutput>, j: nat, now: Time)
    requires j < |outputs| && forall k :: 0 <= k < j ==> outputs[k].id != outputs[j].id
    ensures outputs[j].id in RowsOf(token, outputs, now)
    ensures RowsOf(token, outputs, now)[outputs[j].id] == OutputRow(token, outputs[j], None, now)
  {
    var last := |outputs| - 1;
    RowsOfAre(token, outputs[..last], now);
    if j < last {
      FirstInBatch(token, outputs[..last], j, now);
    } else {
      assert outputs[j].id !in Ids(outputs[..last]);
    }
  }

  lemma {:induction false} FirstReported(incoming: seq<TokenOutputs>, i: nat, j: nat, now: Time)
    requires FirstReport(incoming, i, j)
    ensures var c := incoming[i].outputs[j];
            && c.id in IncomingRows(incoming, now)
            && IncomingRows(incoming, now)[c.id] == OutputRow(incoming[i].metadata.identifier, c, None, now)
  {
    var last := |incoming| - 1;
    var c := incoming[i].outputs[j];
    if i < last {
      FirstReported(incoming[..last], i, j, now);
    } else {
      FirstInBatch(incoming[i].metadata.identifier, incoming[i].outputs, j, now);
      IncomingRowsAre(incoming[..last], now);
      forall to, d | to in incoming[..last] && d in to.outputs ensures d.id != c.id {
        var h :| 0 <= h < last && incoming[h] == to;
        var k :| 0 <= k < |to.outputs| && to.outputs[k] == d;
      }
      assert c.id !in IncomingIds(incoming[..last]);
    }
  }

  /** What a refresh writes: a reported output that was not there, or did not stay, under the token of its first
      report, free and as of now. */
  lemma RefreshWrites(db: TokenDb, op: Op, i: nat, j: nat)
    requires Consistent(db) && op.SetOp? && !TurnedAway(db, op.start) && FirstReport(op.incoming, i, j)
    requires var o := op.incoming[i].outputs[j].id; !Stays(db, op, o) && !SpentSince(db, op.start, o)
    ensures var c := op.incoming[i].outputs[j];
            && c.id in Step(db, op).outputs
            && Step(db, op).outputs[c.id] == OutputRow(op.incoming[i].metadata.identifier, c, None, op.now)
  {
    FirstReported(op.incoming, i, j, op.now);
    ReportsAre(op.incoming, op.incoming[i].outputs[j].id);
    IncomingRowsAre(op.incoming, op.now);
  }

  /** Entry i is the last one reported for its token. */
  predicate LastReport(incoming: seq<TokenOutputs>, i: nat) {
    && i < |incoming|
    && forall h :: i < h < |incoming| ==> incoming[h].metadata.identifier != incoming[i].metadata.identifier
  }

  lemma {:induction false} LastMetadata(incoming: seq<TokenOutputs>, i: nat)
    requires LastReport(incoming, i)
    ensures var t := incoming[i].metadata.identifier;
            t in MetadataOf(incoming) && MetadataOf(incoming)[t] == incoming[i].metadata
  {
    var last := |incoming| - 1;
    if i < last {
      LastMetadata(incoming[..last], i);
    }
  }

  /** The other tables after a refresh: markers more than 300 seconds older than the start are gone, metadata is that
      of the last report, or the old one while outputs of the token stay. */
  lemma RefreshTables(db: TokenDb, op: Op)
    requires Consistent(db) && op.SetOp? && !TurnedAway(db, op.start)
    ensures var after := Step(db, op);
            && (forall o :: o in after.spent <==> o in db.spent && db.spent[o] >= op.start - 300_000)
            && (forall o :: o in after.spent ==> after.spent[o] == db.spent[o])
            && after.lastCompletedAt == db.lastCompletedAt
            && (forall i: nat :: LastReport(op.incoming, i) ==>
                  var t := op.incoming[i].metadata.identifier;
                  t in after.metadata && after.metadata[t] == op.incoming[i].metadata)
  {
    forall i: nat | LastReport(op.incoming, i)
      ensures var t := op.incoming[i].metadata.identifier;
              t in MetadataOf(op.incoming) && MetadataOf(op.incoming)[t] == op.incoming[i].metadata
    {
      LastMetadata(op.incoming, i);
    }
  }

  lemma RefreshMetadata(db: TokenDb, op: Op, t: TokenId)
    requires Consistent(db) && op.SetOp? && !TurnedAway(db, op.start)
    requires forall to :: to in op.incoming ==> to.metadata.identifier != t
    ensures t in Step(db, op).metadata <==> t in db.metadata && exists o :: Stays(db, op, o) && db.outputs[o].token == t
    ensures t in Step(db, op).metadata ==> Step(db, op).metadata[t] == db.metadata[t]
  {
    var ids := IncomingIds(op.incoming);
    var kept := KeptRows(db.outputs, op.start, ids);
    MetadataOfAre(op.incoming);
    forall o ensures Stays(db, op, o) <==> o in kept {
      ReportsAre(op.incoming, o);
    }
    if exists o :: Stays(db, op, o) && db.outputs[o].token == t {
      var o :| Stays(db, op, o) && db.outputs[o].token == t;
      assert o in kept && kept[o].token == t;
    }
  }

  /* ---------- insert_token_outputs ---------- */

  /** Inserting stores the metadata, clears the markers of the outputs and adds those not stored yet, the first of one
      id; rows that are there keep everything, their reservation included. */
  lemma InsertEffect(db: TokenDb, op: Op)
    requires op.InsertOp?
    ensures var after, to := Step(db, op), op.to;
            && (forall o :: o in after.outputs <==> o in db.outputs || o in Ids(to.outputs))
            && (forall o :: o in db.outputs ==> after.outputs[o] == db.outputs[o])
            && (forall j :: 0 <= j < |to.outputs| && to.outputs[j].id !in db.outputs
                            && (forall k :: 0 <= k < j ==> to.outputs[k].id != to.outputs[j].id) ==>
                  after.outputs[to.outputs[j].id]
                  == OutputRow(to.metadata.identifier, to.outputs[j], None, op.now))
            && (forall t :: t in after.metadata <==> t in db.metadata || t == to.metadata.identifier)
            && (forall t :: t in after.metadata ==>
                  after.metadata[t] == if t == to.metadata.identifier then to.metadata else db.metadata[t])
            && (forall o :: o in after.spent <==> o in db.spent && o !in Ids(to.outputs))
            && (forall o :: o in after.spent ==> after.spent[o] == db.spent[o])
            && after.reservations == db.reservations && after.lastCompletedAt == db.lastCompletedAt
  {
    var to := op.to;
    RowsOfAre(to.metadata.identifier, to.outputs, op.now);
    forall j | 0 <= j < |to.outputs| && (forall k :: 0 <= k < j ==> to.outputs[k].id != to.outputs[j].id)
      ensures to.outputs[j].id in RowsOf(to.metadata.identifier, to.outputs, op.now)
      ensures RowsOf(to.metadata.identifier, to.outputs, op.now)[to.outputs[j].id]
           == OutputRow(to.metadata.identifier, to.outputs[j], None, op.now)
    {
      FirstInBatch(to.metadata.identifier, to.outputs, j, op.now);
    }
  }

  /* ---------- reserve_token_outputs ---------- */

  /** Listed in the order of the rows. */
  ghost predicate InOrder(order: seq<OutputId>, outputs: seq<TokenOutput>) {
    forall i, j :: 0 <= i < j < |outputs| ==> Precedes(order, outputs[i].id, outputs[j].id)
  }

  ghost predicate Precedes(order: seq<OutputId>, a: OutputId, b: OutputId) {
    exists i, j :: 0 <= i < j < |order| && order[i] == a && order[j] == b
  }

  lemma {:induction false} CandidatesInOrder(outputs: map<OutputId, OutputRow>, order: seq<OutputId>, token: TokenId,
                                             preferred: Option<set<OutputId>>)
    requires forall o :: o in outputs ==> outputs[o].output.id == o
    ensures InOrder(order, Candidates(outputs, order, token, preferred))
    ensures forall c :: c in Candidates(outputs, order, token, preferred) ==> c.id in order
  {
    if order != [] {
      var k := |order| - 1;
      var before, cs := Candidates(outputs, order[..k], token, preferred), Candidates(outputs, order, token, preferred);
      CandidatesInOrder(outputs, order[..k], token, preferred);
      forall i, j | 0 <= i < j < |cs| ensures Precedes(order, cs[i].id, cs[j].id) {
        if j < |before| {
          assert Precedes(order[..k], before[i].id, before[j].id);
          var a, b :| 0 <= a < b < k && order[..k][a] == before[i].id && order[..k][b] == before[j].id;
          assert order[a] == cs[i].id && order[b] == cs[j].id;
        } else {
          assert before[i].id in order[..k];
          var a :| 0 <= a < k && order[..k][a] == before[i].id;
          assert order[a] == cs[i].id && order[k] == cs[j].id;
        }
      }
    }
  }

  /** What a request chooses from: the unreserved outputs of its token, only preferred ones if it names any, each once
      and in row order. */
  lemma CandidatesExactly(db: TokenDb, order: seq<OutputId>, q: Request)
    requires Consistent(db) && Lists(order, db.outputs)
    ensures var cs := Candidates(db.outputs, order, q.token, q.preferred);
            && InOrder(order, cs) && (forall i, j :: 0 <= i < j < |cs| ==> cs[i].id != cs[j].id)
            && forall c :: c in cs <==>
                 && c.id in db.outputs && db.outputs[c.id].output == c && db.outputs[c.id].token == q.token
                 && db.outputs[c.id].reservation.None? && (q.preferred.Some? ==> c.id in q.preferred.value)
  {
    var cs := Candidates(db.outputs, order, q.token, q.preferred);
    CandidatesInOrder(db.outputs, order, q.token, q.preferred);
    CandidatesAre(db.outputs, order, q.token, q.preferred);
    CandidatesComplete(db.outputs, order, q.token, q.preferred);
    forall c: TokenOutput
      | c.id in db.outputs && db.outputs[c.id].output == c && Candidate(db.outputs[c.id], q.token, q.preferred)
      ensures c in cs
    {
      assert c.id in Ids(cs);
      var d :| d in cs && d.id == c.id;
    }
  }

  /** What a request is told: nothing is asked for, the token is unknown, the candidates are not worth the amount, the
      id is taken, or the metadata of the token with the chosen outputs. */
  lemma ReserveAnswers(db: TokenDb, op: Op)
    requires op.ReserveOp?
    ensures var cs := Candidates(db.outputs, op.order, op.q.token, op.q.preferred);
            var answer := ReserveAnswer(db, op.order, op.id, op.q);
            if op.q.target == MinTotalValue(0) || op.q.target == MaxOutputCount(0) then answer == Err(ZeroTarget)
            else if op.q.token !in db.metadata then answer == Err(TokenNotFound)
            else if op.q.target.MinTotalValue? && Amount(cs) < op.q.target.amount then answer == Err(InsufficientFunds)
            else if op.id in db.reservations then answer == Err(DatabaseError)
            else
              && answer.Ok? && answer.value.metadata == db.metadata[op.q.token]
              && Chosen(cs, op.q.target, op.q.strategy) == Ok(answer.value.outputs)
  {
  }

  /** A granted request records its purpose and time and assigns the chosen rows; a failed one changes nothing. */
  lemma ReserveEffect(db: TokenDb, op: Op)
    requires op.ReserveOp?
    ensures ReserveAnswer(db, op.order, op.id, op.q).Err? ==> Step(db, op) == db
    ensures ReserveAnswer(db, op.order, op.id, op.q).Ok? ==>
              var after, chosen := Step(db, op), Ids(ReserveAnswer(db, op.order, op.id, op.q).value.outputs);
              && after.reservations == db.reservations[op.id := ReservationRow(op.q.purpose, op.now)]
              && after.outputs.Keys == db.outputs.Keys
              && (forall o :: o in db.outputs ==>
                    after.outputs[o] == if o in chosen then db.outputs[o].(reservation := Some(op.id))
                                        else db.outputs[o])
              && after.metadata == db.metadata && after.spent == db.spent
              && after.lastCompletedAt == db.lastCompletedAt
  {
  }

  /* ---------- cancel_reservation, finalize_reservation ---------- */

  lemma CancelTables(db: TokenDb, op: Op)
    requires op.CancelOp?
    ensures var after := Step(db, op);
            && (forall r :: r in after.reservations <==> r in db.reservations && r != op.id)
            && (forall r :: r in after.reservations ==> after.reservations[r] == db.reservations[r])
            && after.metadata == db.metadata && after.spent == db.spent
            && after.lastCompletedAt == db.lastCompletedAt
  {
  }

  /** Finalizing deletes the held outputs and leaves a marker on each, drops the reservation and the metadata of tokens
      left without outputs, and stamps a swap; an unknown id changes nothing. */
  lemma FinalizeEffect(db: TokenDb, op: Op)
    requires op.FinalizeOp?
    ensures op.id !in db.reservations ==> Step(db, op) == db
    ensures op.id in db.reservations ==>
              var after := Step(db, op);
              && (forall o :: o in after.outputs <==> o in db.outputs && Holder(db, o) != Some(op.id))
              && (forall o :: o in after.outputs ==> after.outputs[o] == db.outputs[o])
              && (forall o :: o in after.spent <==> o in db.spent || Holder(db, o) == Some(op.id))
              && (forall o :: o in after.spent ==> after.spent[o] == if o in db.spent then db.spent[o] else op.now)
              && (forall r :: r in after.reservations <==> r in db.reservations && r != op.id)
              && (forall r :: r in after.reservations ==> after.reservations[r] == db.reservations[r])
              && after.lastCompletedAt == (if db.reservations[op.id].purpose == Swap then Some(op.now)
                                           else db.lastCompletedAt)
              && (forall t :: t in after.metadata <==>
                    t in db.metadata && exists o :: o in after.outputs && after.outputs[o].token == t)
              && (forall t :: t in after.metadata ==> after.metadata[t] == db.metadata[t])
  {
    if op.id in db.reservations {
      var left := db.outputs - HeldBy(db.outputs, op.id);
      forall t ensures t in TokensOf(left) <==> exists o :: o in left && left[o].token == t {}
    }
  }

  /* ---------- swaps and refreshes over whole runs ---------- */

  predicate Closes(op: Op, id: ReservationId) {
    (op.CancelOp? || op.FinalizeOp?) && op.id == id
  }

  predicate Requests(op: Op, id: ReservationId) {
    op.ReserveOp? && op.id == id
  }

  ghost predicate SwapLives(db: TokenDb, s: ReservationId) {
    s in db.reservations && db.reservations[s].purpose == Swap
  }

  /** A granted request for a swap makes it live. */
  lemma SwapStarts(db: TokenDb, op: Op)
    requires op.ReserveOp? && op.q.purpose == Swap && ReserveAnswer(db, op.order, op.id, op.q).Ok?
    ensures SwapLives(Step(db, op), op.id)
  {
  }

  lemma StepUnderSwap(db: TokenDb, op: Op, s: ReservationId)
    requires SwapLives(db, s) && !Closes(op, s)
    ensures SwapLives(Step(db, op), s)
    ensures op.SetOp? ==> Step(db, op) == db
  {
    if op.SetOp? { RefreshTurnedAway(db, op); }
  }

  lemma {:induction false} SwapLivesOn(db: TokenDb, ops: seq<Op>, n: nat, s: ReservationId)
    requires SwapLives(db, s) && n <= |ops| && forall op :: op in ops ==> !Closes(op, s)
    ensures SwapLives(Run(db, ops[..n]), s)
  {
    if n == 0 {
      assert ops[..0] == [];
    } else {
      SwapLivesOn(db, ops, n - 1, s);
      RunOneMore(db, ops, n - 1);
      assert ops[n - 1] in ops;
      StepUnderSwap(Run(db, ops[..n - 1]), ops[n - 1], s);
    }
  }

  /** Until a live swap is finalized or cancelled, it lives and no refresh changes anything. */
  lemma SwapBlocksRefreshes(db: TokenDb, ops: seq<Op>, s: ReservationId)
    requires SwapLives(db, s) && forall op :: op in ops ==> !Closes(op, s)
    ensures SwapLives(Run(db, ops), s)
    ensures forall i :: 0 <= i < |ops| && ops[i].SetOp? ==> Run(db, ops[..i + 1]) == Run(db, ops[..i])
  {
    SwapLivesOn(db, ops, |ops|, s);
    assert ops[..|ops|] == ops;
    forall i | 0 <= i < |ops| && ops[i].SetOp? ensures Run(db, ops[..i + 1]) == Run(db, ops[..i]) {
      SwapLivesOn(db, ops, i, s);
      RunOneMore(db, ops, i);
      assert ops[i] in ops;
      StepUnderSwap(Run(db, ops[..i]), ops[i], s);
    }
  }

  /** A finalize of a live swap: the only operation that sets the completion time. */
  predicate Stamps(db: TokenDb, op: Op) {
    op.FinalizeOp? && op.id in db.reservations && db.reservations[op.id].purpose == Swap
  }

  lemma OnlyStampsComplete(db: TokenDb, op: Op)
    ensures Step(db, op).lastCompletedAt == if Stamps(db, op) then Some(op.now) else db.lastCompletedAt
  {
  }

  predicate CompletedFrom(db: TokenDb, t: Time) {
    db.lastCompletedAt.Some? && db.lastCompletedAt.value >= t
  }

  /** No stamp of the run goes back before time t. */
  ghost predicate StampsFrom(db: TokenDb, ops: seq<Op>, t: Time) {
    forall i :: 0 <= i < |ops| && Stamps(Run(db, ops[..i]), ops[i]) ==> ops[i].now >= t
  }

  lemma {:induction false} CompletionStays(db: TokenDb, ops: seq<Op>, n: nat, t: Time)
    requires CompletedFrom(db, t) && n <= |ops| && StampsFrom(db, ops, t)
    ensures CompletedFrom(Run(db, ops[..n]), t)
  {
    if n == 0 {
      assert ops[..0] == [];
    } else {
      CompletionStays(db, ops, n - 1, t);
      RunOneMore(db, ops, n - 1);
      OnlyStampsComplete(Run(db, ops[..n - 1]), ops[n - 1]);
    }
  }

  /** Once a swap has been finalized at time t, no refresh that started at or before t is ever applied, as long as no
      later swap sets the completion time back before t. */
  lemma CompletedSwapBlocksOlderRefreshes(db: TokenDb, done: Op, ops: seq<Op>)
    requires Stamps(db, done) && StampsFrom(Step(db, done), ops, done.now)
    ensures forall i :: 0 <= i < |ops| && ops[i].SetOp? && ops[i].start <= done.now ==>
              Run(Step(db, done), ops[..i + 1]) == Run(Step(db, done), ops[..i])
  {
    var after := Step(db, done);
    OnlyStampsComplete(db, done);
    forall i | 0 <= i < |ops| && ops[i].SetOp? && ops[i].start <= done.now
      ensures Run(after, ops[..i + 1]) == Run(after, ops[..i])
    {
      CompletionStays(after, ops, i, done.now);
      RefreshTurnedAway(Run(after, ops[..i]), ops[i]);
      RunOneMore(after, ops, i);
    }
  }
}
