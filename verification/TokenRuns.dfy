/** Runs of the token output store. */
module TokenRuns {
  import opened Prelude
  import opened TokenSelection
  import opened TokenTables

  datatype Op =
    | SetOp(now: Time, incoming: seq<TokenOutputs>, start: Time)
    | InsertOp(now: Time, to: TokenOutputs)
    | ReserveOp(now: Time, order: seq<OutputId>, id: ReservationId, q: Request)
    | CancelOp(id: ReservationId)
    | FinalizeOp(now: Time, id: ReservationId)

  function Step(db: TokenDb, op: Op): TokenDb {
    match op
    case SetOp(now, incoming, start) => SetTokensOutputs(db, now, incoming, start)
    case InsertOp(now, to) => InsertTokenOutputs(db, now, to)
    case ReserveOp(now, order, id, q) => Reserve(db, now, order, id, q)
    case CancelOp(id) => Cancel(db, id)
    case FinalizeOp(now, id) => Finalize(db, now, id)
  }

  function Run(db: TokenDb, ops: seq<Op>): TokenDb {
    if ops == [] then db else Step(Run(db, ops[..|ops| - 1]), ops[|ops| - 1])
  }

  ghost predicate Possible(db: TokenDb, op: Op) {
    op.ReserveOp? ==> Lists(op.order, db.outputs)
  }

  ghost predicate PossibleRun(ops: seq<Op>) {
    forall i :: 0 <= i < |ops| ==> Possible(Run(EmptyTokenDb, ops[..i]), ops[i])
  }

  ghost predicate Reaches(ops: seq<Op>, db: TokenDb) {
    PossibleRun(ops) && Run(EmptyTokenDb, ops) == db
  }

  lemma ReachesOneMore(ops: seq<Op>, db: TokenDb, op: Op)
    requires Reaches(ops, db) && Possible(db, op)
    ensures Reaches(ops + [op], Step(db, op))
  {
    var longer := ops + [op];
    assert longer[..|ops|] == ops;
    forall i | 0 <= i < |longer| ensures Possible(Run(EmptyTokenDb, longer[..i]), longer[i]) {
      if i < |ops| { assert longer[..i] == ops[..i]; }
    }
  }

  /* ---------- the foreign keys in every reachable state ---------- */

  lemma RefreshKeepsConsistent(db: TokenDb, now: Time, incoming: seq<TokenOutputs>, start: Time)
    requires Consistent(db)
    ensures Consistent(Refreshed(db, now, incoming, start))
  {
    var ids := IncomingIds(incoming);
    var kept := KeptRows(db.outputs, start, ids);
    var after := Refreshed(db, now, incoming, start);
    IncomingRowsAre(incoming, now);
    MetadataOfAre(incoming);
    forall o | o in after.outputs
      ensures after.outputs[o].output.id == o && after.outputs[o].token in after.metadata
      ensures after.outputs[o].reservation.Some? ==> after.outputs[o].reservation.value in after.reservations
    {
      if o in kept {
        assert kept[o].token in TokensOf(kept);
        if kept[o].reservation.Some? {
          assert o in HeldBy(db.outputs, kept[o].reservation.value) && o in ids;
        }
      }
    }
  }

  /** Orphan cleanup never removes the metadata of a token that still has outputs, and no output outlives
      its reservation's row: both foreign keys hold after every step. */
  lemma StepKeepsConsistent(db: TokenDb, op: Op)
    requires Consistent(db)
    ensures Consistent(Step(db, op))
  {
    match op
    case SetOp(now, incoming, start) =>
      RefreshKeepsConsistent(db, now, incoming, start);
    case InsertOp(now, to) =>
      RowsOfAre(to.metadata.identifier, to.outputs, now);
    case ReserveOp(_, _, _, _) =>
    case CancelOp(_) =>
    case FinalizeOp(_, id) =>
      if id in db.reservations { FinalizeKeepsConsistent(db, op); }
  }

  lemma FinalizeKeepsConsistent(db: TokenDb, op: Op)
    requires Consistent(db) && op.FinalizeOp? && op.id in db.reservations
    ensures Consistent(Step(db, op))
  {
    var after := Step(db, op);
    forall o | o in after.outputs
      ensures after.outputs[o].token in after.metadata
      ensures after.outputs[o].reservation.Some? ==> after.outputs[o].reservation.value in after.reservations
    {
      assert o in db.outputs && o !in HeldBy(db.outputs, op.id);
      assert after.outputs[o].token in TokensOf(after.outputs);
    }
  }

  lemma {:induction false} ReachableIsConsistent(ops: seq<Op>)
    ensures Consistent(Run(EmptyTokenDb, ops))
  {
    if ops != [] {
      ReachableIsConsistent(ops[..|ops| - 1]);
      StepKeepsConsistent(Run(EmptyTokenDb, ops[..|ops| - 1]), ops[|ops| - 1]);
    }
  }

  /** After finalizing a live reservation in a reachable state, exactly the tokens that still have outputs
      have metadata; after a committed refresh, those and the reported ones. */
  lemma MetadataAfterCleanup(ops: seq<Op>, op: Op)
    ensures var db := Run(EmptyTokenDb, ops);
            var after := Step(db, op);
            op.FinalizeOp? && op.id in db.reservations ==> after.metadata.Keys == TokensOf(after.outputs)
    ensures var db := Run(EmptyTokenDb, ops);
            var after := Step(db, op);
            op.SetOp? && !RefreshBlocked(db, op.start) ==>
              after.metadata.Keys == TokensOf(after.outputs) + set to | to in op.incoming :: to.metadata.identifier
  {
    var db := Run(EmptyTokenDb, ops);
    ReachableIsConsistent(ops);
    StepKeepsConsistent(db, op);
    if op.SetOp? && !RefreshBlocked(db, op.start) {
      MetadataOfAre(op.incoming);
      IncomingRowsAre(op.incoming, op.now);
      var kept := KeptRows(db.outputs, op.start, IncomingIds(op.incoming));
      var after := Step(db, op);
      forall t | t in WithoutOrphans(db.metadata, kept) ensures t in TokensOf(after.outputs) {
        var o :| o in kept && kept[o].token == t;
        assert o in after.outputs && after.outputs[o] == kept[o];
      }
      forall t | t in TokensOf(after.outputs) ensures t in after.metadata {}
    }
  }

  /* ---------- a committed refresh as set expressions ---------- */

  /** Some reservation holds a reported output and one that is not. */
  predicate SomePartlyLost(outputs: map<OutputId, OutputRow>, ids: set<OutputId>) {
    exists o, p :: o in outputs && p in outputs && outputs[o].reservation.Some?
                   && outputs[o].reservation == outputs[p].reservation && o in ids && p !in ids
  }

  /** Which outputs a committed refresh leaves, and exactly which reservations. Everything still reserved was reported
      and is unchanged. A reservation that held outputs stays if one of them was reported; one that held none stays
      unless some other reservation lost a part of what it held. */
  lemma RefreshExactly(db: TokenDb, op: Op)
    requires Consistent(db) && op.SetOp? && !RefreshBlocked(db, op.start)
    ensures var after, ids := Step(db, op), IncomingIds(op.incoming);
            && after.outputs.Keys
               == (set o | o in db.outputs && db.outputs[o].reservation.Some? && o in ids)
                  + (set o | o in db.outputs && db.outputs[o].reservation.None? && db.outputs[o].addedAt >= op.start)
                  + (ids - RecentlySpent(db, op.start))
            && (forall o :: o in after.outputs && after.outputs[o].reservation.Some? ==>
                  o in ids && o in db.outputs && after.outputs[o] == db.outputs[o])
            && (forall o :: o in db.outputs && db.outputs[o].reservation.Some? && o in ids ==>
                  o in after.outputs && after.outputs[o] == db.outputs[o])
            && (forall r :: r in after.reservations <==>
                  && r in db.reservations
                  && if HeldBy(db.outputs, r) == {} then !SomePartlyLost(db.outputs, ids)
                     else exists o :: o in HeldBy(db.outputs, r) && o in ids)
            && (forall r :: r in after.reservations ==> after.reservations[r] == db.reservations[r])
  {
    var ids := IncomingIds(op.incoming);
    IncomingRowsAre(op.incoming, op.now);
    InsertedRowsAre(db.outputs, op.start, ids, IncomingRows(op.incoming, op.now), RecentlySpent(db, op.start));
    PartlyLostAre(db.outputs, ids);
    forall r ensures HeldBy(db.outputs, r) !! ids <==> !exists o :: o in HeldBy(db.outputs, r) && o in ids {}
  }

  lemma PartlyLostAre(outputs: map<OutputId, OutputRow>, ids: set<OutputId>)
    ensures LostOutputs(outputs, ids) != {} <==> SomePartlyLost(outputs, ids)
  {
    if LostOutputs(outputs, ids) != {} {
      var p :| p in LostOutputs(outputs, ids);
      var o :| o in HeldBy(outputs, outputs[p].reservation.value) && o in ids;
      assert outputs[o].reservation == outputs[p].reservation;
    }
    if SomePartlyLost(outputs, ids) {
      var o, p :| o in outputs && p in outputs && outputs[o].reservation.Some?
                  && outputs[o].reservation == outputs[p].reservation && o in ids && p !in ids;
      assert o in HeldBy(outputs, outputs[p].reservation.value);
      assert p in LostOutputs(outputs, ids);
    }
  }

  lemma InsertedRowsAre(outputs: map<OutputId, OutputRow>, start: Time, ids: set<OutputId>,
                        rows: map<OutputId, OutputRow>, recent: set<OutputId>)
    requires rows.Keys == ids && forall o :: o in rows ==> rows[o].reservation.None?
    ensures var after := Inserted(KeptRows(outputs, start, ids), rows, recent);
            && after.Keys
               == (set o | o in outputs && outputs[o].reservation.Some? && o in ids)
                  + (set o | o in outputs && outputs[o].reservation.None? && outputs[o].addedAt >= start)
                  + (ids - recent)
            && (forall o :: o in after && after[o].reservation.Some? ==>
                  o in ids && o in outputs && after[o] == outputs[o])
            && (forall o :: o in outputs && outputs[o].reservation.Some? && o in ids ==>
                  o in after && after[o] == outputs[o])
  {
  }

  /** An output added at or after the start of a committed refresh survives it exactly when it is free, or
      reported, by then. The promise that later additions are preserved fails for one reserved in between. */
  lemma LaterAdditionSurvivesIff(db: TokenDb, op: Op, o: OutputId)
    requires Consistent(db) && op.SetOp? && !RefreshBlocked(db, op.start)
    requires o in db.outputs && db.outputs[o].addedAt >= op.start
    ensures o in Step(db, op).outputs <==> db.outputs[o].reservation.None? || o in IncomingIds(op.incoming)
    ensures o in Step(db, op).outputs ==> Step(db, op).outputs[o] == db.outputs[o]
  {
    IncomingRowsAre(op.incoming, op.now);
  }

  const GOLD := TokenMetadata("gold", "")
  const COIN := TokenOutput("x", 5, "")
  const WALLET := TokenOutputs(GOLD, [COIN])

  function CoinRow(reservation: Option<ReservationId>, addedAt: Time): map<OutputId, OutputRow> {
    map["x" := OutputRow("gold", COIN, reservation, addedAt)]
  }

  /** The store with the free coin and nothing else but markers. */
  function Holding(addedAt: Time, spent: map<OutputId, Time>): TokenDb {
    TokenDb(map["gold" := GOLD], CoinRow(None, addedAt), map[], spent, None)
  }

  function Reserving(at: Time, id: ReservationId): Op {
    ReserveOp(at, ["x"], id, Request("gold", MaxOutputCount(1), Payment, None, None))
  }

  function Reserved(addedAt: Time, spent: map<OutputId, Time>, at: Time, id: ReservationId): TokenDb {
    Holding(addedAt, spent).(outputs := CoinRow(Some(id), addedAt),
                             reservations := map[id := ReservationRow(Payment, at)])
  }

  lemma OneOutput(now: Time)
    ensures RowsOf("gold", [COIN], now) == CoinRow(None, now)
  {
    assert [COIN][..0] == [];
    assert RowsOf("gold", [], now) == map[];
  }

  lemma ReceiveCoin(at: Time)
    ensures Step(EmptyTokenDb, InsertOp(at, WALLET)) == Holding(at, map[])
  {
    OneOutput(at);
  }

  lemma OneCandidate(outputs: map<OutputId, OutputRow>)
    requires "x" in outputs && outputs["x"].output == COIN && outputs["x"].token == "gold"
    requires outputs["x"].reservation.None?
    ensures Candidates(outputs, ["x"], "gold", None) == [COIN]
    ensures Chosen([COIN], MaxOutputCount(1), None) == Ok([COIN])
  {
    assert ["x"][..0] == [];
    assert Candidates(outputs, [], "gold", None) == [];
    assert InsertByKey(COIN, [], Ascending) == [COIN];
  }

  lemma ReserveCoin(addedAt: Time, spent: map<OutputId, Time>, at: Time, id: ReservationId)
    ensures Step(Holding(addedAt, spent), Reserving(at, id)) == Reserved(addedAt, spent, at, id)
    ensures Possible(Holding(addedAt, spent), Reserving(at, id))
  {
    OneCandidate(CoinRow(None, addedAt));
    assert Ids([COIN]) == {"x"};
    assert Assigned(CoinRow(None, addedAt), {"x"}, id) == CoinRow(Some(id), addedAt);
  }

  lemma NothingReported(held: TokenDb)
    requires held == Reserved(10, map[], 11, "r")
    ensures KeptRows(held.outputs, 5, {}) == map[] && LostReservations(held, {}) == {"r"}
  {
    assert HeldBy(held.outputs, "r") == {"x"};
  }

  lemma DropHeldCoin(held: TokenDb)
    requires held == Reserved(10, map[], 11, "r")
    ensures Step(held, SetOp(12, [], 5)).outputs == map[] && Step(held, SetOp(12, [], 5)).reservations == map[]
  {
    NothingReported(held);
    assert IncomingIds([]) == {} && IncomingRows([], 12) == map[];
    assert Refreshed(held, 12, [], 5).reservations.Keys == {};
  }

  /** An output received at 10 and reserved at 11 is deleted, with its reservation, by a refresh that started
      at 5 and therefore could not report it. */
  lemma RefreshDropsALaterAddition()
    ensures exists held ::
              && Reaches([] + [InsertOp(10, WALLET)] + [Reserving(11, "r")], held)
              && "x" in held.outputs && held.outputs["x"].addedAt == 10 && "r" in held.reservations
              && Step(held, SetOp(12, [], 5)).outputs == map[] && Step(held, SetOp(12, [], 5)).reservations == map[]
  {
    assert Reaches([], EmptyTokenDb);
    ReceiveCoin(10);
    ReachesOneMore([], EmptyTokenDb, InsertOp(10, WALLET));
    ReserveCoin(10, map[], 11, "r");
    ReachesOneMore([] + [InsertOp(10, WALLET)], Holding(10, map[]), Reserving(11, "r"));
    DropHeldCoin(Reserved(10, map[], 11, "r"));
  }

  /* ---------- reservations ---------- */

  lemma {:induction false} CandidatesAre(outputs: map<OutputId, OutputRow>, order: seq<OutputId>, token: TokenId,
                                         preferred: Option<set<OutputId>>)
    requires forall o :: o in outputs ==> outputs[o].output.id == o
    ensures forall c :: c in Candidates(outputs, order, token, preferred) ==>
              c.id in outputs && outputs[c.id].output == c && Candidate(outputs[c.id], token, preferred)
  {
    if order != [] {
      CandidatesAre(outputs, order[..|order| - 1], token, preferred);
    }
  }

  /** The rows a request chooses from are exactly the free, preferred outputs of its token, each once. */
  lemma {:induction false} CandidatesComplete(outputs: map<OutputId, OutputRow>, order: seq<OutputId>, token: TokenId,
                                              preferred: Option<set<OutputId>>)
    requires forall o :: o in outputs ==> outputs[o].output.id == o
    requires forall i, j :: 0 <= i < j < |order| ==> order[i] != order[j]
    ensures var cs := Candidates(outputs, order, token, preferred);
            && (forall i, j :: 0 <= i < j < |cs| ==> cs[i].id != cs[j].id)
            && Ids(cs) == set o | o in order && o in outputs && Candidate(outputs[o], token, preferred)
  {
    if order != [] {
      var k := |order| - 1;
      CandidatesComplete(outputs, order[..k], token, preferred);
      assert order == order[..k] + [order[k]];
      assert order[k] !in order[..k];
      var before := Candidates(outputs, order[..k], token, preferred);
      if order[k] in outputs && Candidate(outputs[order[k]], token, preferred) {
        var c := outputs[order[k]].output;
        assert Ids(before + [c]) == Ids(before) + {c.id};
        forall i | 0 <= i < |before| ensures before[i].id != c.id {
          assert before[i].id in Ids(before);
        }
      }
    }
  }

  /** A request for a positive value of a known token is granted exactly when its free, preferred outputs are worth
      it; a positive number of outputs is always granted, even if nothing is free. */
  lemma ReserveGrantedIff(db: TokenDb, op: Op)
    requires Consistent(db) && op.ReserveOp? && Possible(db, op)
    requires op.q.token in db.metadata && op.id !in db.reservations && !ZeroRequest(op.q.target)
    ensures var cs := Candidates(db.outputs, op.order, op.q.token, op.q.preferred);
            && Ids(cs) == (set o | o in db.outputs && Candidate(db.outputs[o], op.q.token, op.q.preferred))
            && (ReserveAnswer(db, op.order, op.id, op.q).Ok? <==>
                  (op.q.target.MinTotalValue? ==> Amount(cs) >= op.q.target.amount))
  {
    CandidatesComplete(db.outputs, op.order, op.q.token, op.q.preferred);
  }

  lemma ChosenAreCandidates(outputs: seq<TokenOutput>, target: ReservationTarget, strategy: Option<SelectionStrategy>)
    requires Chosen(outputs, target, strategy).Ok?
    ensures forall c :: c in Chosen(outputs, target, strategy).value ==> c in outputs
  {
    PermutationMembers(SortByKey(outputs, KeyOf(strategy)), outputs);
  }

  /** A successful request holds only free outputs of its token; all other rows are untouched. Cancelling
      it at once restores the store exactly. */
  lemma ReserveHoldsExactly(db: TokenDb, op: Op)
    requires Consistent(db) && op.ReserveOp?
    requires ReserveAnswer(db, op.order, op.id, op.q).Ok?
    ensures var chosen := ReserveAnswer(db, op.order, op.id, op.q).value.outputs;
            var after := Step(db, op);
            && (forall c :: c in chosen ==> c.id in db.outputs && db.outputs[c.id].output == c
                                            && Candidate(db.outputs[c.id], op.q.token, op.q.preferred))
            && HeldBy(after.outputs, op.id) == Ids(chosen)
            && after.outputs.Keys == db.outputs.Keys
            && (forall o :: o in db.outputs && o !in Ids(chosen) ==> after.outputs[o] == db.outputs[o])
            && Cancel(after, op.id) == db
  {
    var candidates := Candidates(db.outputs, op.order, op.q.token, op.q.preferred);
    CandidatesAre(db.outputs, op.order, op.q.token, op.q.preferred);
    ChosenAreCandidates(candidates, op.q.target, op.q.strategy);
    var chosen := ReserveAnswer(db, op.order, op.id, op.q).value.outputs;
    forall o | o in Ids(chosen) ensures o in db.outputs && db.outputs[o].reservation.None? {
      var c :| c in chosen && c.id == o;
    }
    UndoAssigned(db.outputs, Ids(chosen), op.id);
    assert Step(db, op).reservations - {op.id} == db.reservations;
  }

  lemma UndoAssigned(outputs: map<OutputId, OutputRow>, ids: set<OutputId>, id: ReservationId)
    requires forall o :: o in outputs ==> outputs[o].reservation != Some(id)
    requires forall o :: o in ids ==> o in outputs && outputs[o].reservation.None?
    ensures Released(Assigned(outputs, ids, id), {id}) == outputs
    ensures HeldBy(Assigned(outputs, ids, id), id) == ids
  {
  }

  /** Cancelling frees exactly the outputs of the reservation: no row is lost or otherwise changed, all other
      reservations keep what they hold, a second cancel changes nothing, and neither does one of an unknown id. */
  lemma CancelExactly(db: TokenDb, id: ReservationId)
    requires Consistent(db)
    ensures var after := Cancel(db, id);
            && after.outputs.Keys == db.outputs.Keys && HeldBy(after.outputs, id) == {}
            && (forall o :: o in db.outputs ==>
                  after.outputs[o] == if o in HeldBy(db.outputs, id) then db.outputs[o].(reservation := None)
                                      else db.outputs[o])
            && (forall r :: r != id ==> HeldBy(after.outputs, r) == HeldBy(db.outputs, r))
            && id !in after.reservations && Cancel(after, id) == after
            && (id !in db.reservations ==> after == db)
  {
    if id !in db.reservations {
      assert Released(db.outputs, {id}) == db.outputs;
      assert db.reservations - {id} == db.reservations;
    }
    var after := Cancel(db, id);
    assert Released(after.outputs, {id}) == after.outputs;
  }

  /* ---------- spent markers ---------- */

  predicate WritesByName(op: Op, o: OutputId) {
    op.InsertOp? && o in Ids(op.to.outputs)
  }

  predicate Spends(db: TokenDb, op: Op, o: OutputId) {
    op.FinalizeOp? && op.id in db.reservations && o in HeldBy(db.outputs, op.id)
  }

  lemma SpendMarks(db: TokenDb, op: Op, o: OutputId)
    requires Spends(db, op, o)
    ensures o !in Step(db, op).outputs && o in Step(db, op).spent
    ensures Step(db, op).spent[o] == if o in db.spent then db.spent[o] else op.now
  {
  }

  lemma MarkerStep(db: TokenDb, op: Op, o: OutputId)
    requires o in db.spent && !WritesByName(op, o)
    requires op.SetOp? ==> op.start <= db.spent[o] + SPENT_MARKER_CLEANUP_THRESHOLD_MS
    ensures o in Step(db, op).spent && Step(db, op).spent[o] == db.spent[o]
  {
  }

  lemma {:induction false} MarkerSurvives(db: TokenDb, ops: seq<Op>, o: OutputId)
    requires o in db.spent
    requires forall op :: op in ops ==>
               && !WritesByName(op, o)
               && (op.SetOp? ==> op.start <= db.spent[o] + SPENT_MARKER_CLEANUP_THRESHOLD_MS)
    ensures o in Run(db, ops).spent && Run(db, ops).spent[o] == db.spent[o]
  {
    if ops != [] {
      var prefix := ops[..|ops| - 1];
      MarkerSurvives(db, prefix, o);
      MarkerStep(Run(db, prefix), ops[|ops| - 1], o);
    }
  }

  /** An absent output that is not inserted by name appears exactly when a committed refresh reports it and no
      marker at or after the refresh start protects it. */
  lemma WhoInserts(db: TokenDb, op: Op, o: OutputId)
    requires o !in db.outputs && !WritesByName(op, o)
    ensures o in Step(db, op).outputs
       <==> && op.SetOp? && !RefreshBlocked(db, op.start) && o in IncomingIds(op.incoming)
            && !(o in db.spent && db.spent[o] >= op.start)
  {
    if op.SetOp? {
      IncomingRowsAre(op.incoming, op.now);
    } else if op.InsertOp? {
      RowsOfAre(op.to.metadata.identifier, op.to.outputs, op.now);
    }
  }

  lemma RunOneMore(db: TokenDb, ops: seq<Op>, i: nat)
    requires i < |ops|
    ensures Run(db, ops[..i + 1]) == Step(Run(db, ops[..i]), ops[i])
  {
    assert ops[..i + 1][..i] == ops[..i];
  }

  /** Token outputs are not resurrected either: one spent with no older marker is never inserted by a refresh that
      started no later than the spend. */
  lemma NoResurrection(db: TokenDb, spend: Op, ops: seq<Op>, o: OutputId)
    requires Spends(db, spend, o)
    requires o in db.spent ==> db.spent[o] >= spend.now
    requires forall op :: op in ops ==>
               && !WritesByName(op, o)
               && (op.SetOp? ==> op.start <= spend.now + SPENT_MARKER_CLEANUP_THRESHOLD_MS)
    ensures forall i :: 0 <= i < |ops| && ops[i].SetOp? && ops[i].start <= spend.now ==>
              o in Run(Step(db, spend), ops[..i + 1]).outputs ==> o in Run(Step(db, spend), ops[..i]).outputs
  {
    var mid := Step(db, spend);
    SpendMarks(db, spend, o);
    forall i | 0 <= i < |ops| && ops[i].SetOp? && ops[i].start <= spend.now
      ensures o in Run(mid, ops[..i + 1]).outputs ==> o in Run(mid, ops[..i]).outputs
    {
      MarkerSurvives(mid, ops[..i], o);
      RunOneMore(mid, ops, i);
      if o !in Run(mid, ops[..i]).outputs {
        WhoInserts(Run(mid, ops[..i]), ops[i], o);
      }
    }
  }

  lemma {:induction false} StaysAbsent(db: TokenDb, ops: seq<Op>, o: OutputId)
    requires o !in db.outputs && o in db.spent
    requires forall op :: op in ops ==> !WritesByName(op, o) && (op.SetOp? ==> op.start <= db.spent[o])
    ensures o !in Run(db, ops).outputs
  {
    if ops != [] {
      var prefix := ops[..|ops| - 1];
      StaysAbsent(db, prefix, o);
      MarkerSurvives(db, prefix, o);
      WhoInserts(Run(db, prefix), ops[|ops| - 1], o);
    }
  }

  /** As for leaves, after a spend and refreshes started no later than the marker it left, the
      next committed refresh that reports the output brings it back if and only if it started after that marker,
      which is the older one if there was one. */
  lemma NextReportDecides(db: TokenDb, spend: Op, ops: seq<Op>, last: Op, o: OutputId)
    requires Spends(db, spend, o)
    requires var m := if o in db.spent then db.spent[o] else spend.now;
             forall op :: op in ops ==> !WritesByName(op, o) && (op.SetOp? ==> op.start <= m)
    requires last.SetOp? && o in IncomingIds(last.incoming)
    requires !RefreshBlocked(Run(Step(db, spend), ops), last.start)
    ensures o in Step(Run(Step(db, spend), ops), last).outputs
       <==> (if o in db.spent then db.spent[o] else spend.now) < last.start
  {
    SpendMarks(db, spend, o);
    var mid := Step(db, spend);
    MarkerSurvives(mid, ops, o);
    StaysAbsent(mid, ops, o);
    WhoInserts(Run(mid, ops), last, o);
  }

  /* ---------- when exactly does a spent output come back? ---------- */

  /** Operation i of the run is a refresh that commits. */
  ghost predicate CommitsAt(db: TokenDb, ops: seq<Op>, i: nat)
    requires i < |ops|
  {
    ops[i].SetOp? && !RefreshBlocked(Run(db, ops[..i]), ops[i].start)
  }

  /** Before operation n, a refresh committed that started more than five minutes after m. */
  ghost predicate Cleared(db: TokenDb, ops: seq<Op>, n: nat, m: Time)
    requires n <= |ops|
  {
    exists j :: 0 <= j < n && CommitsAt(db, ops, j) && ops[j].start > m + SPENT_MARKER_CLEANUP_THRESHOLD_MS
  }

  /** Operation i is a refresh that commits and reports o, and it started after the marker m or finds it cleared. */
  ghost predicate Revives(db: TokenDb, ops: seq<Op>, i: nat, o: OutputId, m: Time)
    requires i < |ops|
  {
    && CommitsAt(db, ops, i) && o in IncomingIds(ops[i].incoming)
    && (ops[i].start > m || Cleared(db, ops, i, m))
  }

  lemma AbsentMarkerStep(db: TokenDb, op: Op, o: OutputId)
    requires o !in db.outputs && !WritesByName(op, o)
    ensures o in Step(db, op).spent
       <==> o in db.spent && !(op.SetOp? && !RefreshBlocked(db, op.start)
                               && op.start > db.spent[o] + SPENT_MARKER_CLEANUP_THRESHOLD_MS)
    ensures o in Step(db, op).spent ==> Step(db, op).spent[o] == db.spent[o]
  {
  }

  /** The output is absent before every operation up to n. */
  ghost predicate AbsentUpTo(db: TokenDb, ops: seq<Op>, n: nat, o: OutputId)
    requires n <= |ops|
  {
    forall k :: 0 <= k <= n ==> o !in Run(db, ops[..k]).outputs
  }

  lemma ClearedOneMore(db: TokenDb, ops: seq<Op>, n: nat, m: Time)
    requires n < |ops|
    ensures Cleared(db, ops, n + 1, m)
       <==> Cleared(db, ops, n, m)
            || (CommitsAt(db, ops, n) && ops[n].start > m + SPENT_MARKER_CLEANUP_THRESHOLD_MS)
  {
  }

  /** While the output is absent, its marker is there until it is cleared, and never moves. */
  lemma {:induction false} MarkerUntilCleared(db: TokenDb, ops: seq<Op>, n: nat, o: OutputId, m: Time)
    requires n <= |ops| && AbsentUpTo(db, ops, n, o) && o in db.spent && db.spent[o] == m
    requires forall op :: op in ops ==> !WritesByName(op, o)
    ensures o in Run(db, ops[..n]).spent <==> !Cleared(db, ops, n, m)
    ensures o in Run(db, ops[..n]).spent ==> Run(db, ops[..n]).spent[o] == m
  {
    if n == 0 {
      assert ops[..0] == [];
    } else {
      MarkerUntilCleared(db, ops, n - 1, o, m);
      RunOneMore(db, ops, n - 1);
      ClearedOneMore(db, ops, n - 1, m);
      assert ops[n - 1] in ops && o !in Run(db, ops[..n - 1]).outputs;
      AbsentMarkerStep(Run(db, ops[..n - 1]), ops[n - 1], o);
    }
  }

  /** The output comes back with operation n if and only if that operation revives it. */
  lemma BackWithOperation(db: TokenDb, ops: seq<Op>, n: nat, o: OutputId, m: Time)
    requires n < |ops| && AbsentUpTo(db, ops, n, o) && o in db.spent && db.spent[o] == m
    requires forall op :: op in ops ==> !WritesByName(op, o)
    ensures o in Run(db, ops[..n + 1]).outputs <==> Revives(db, ops, n, o, m)
  {
    MarkerUntilCleared(db, ops, n, o, m);
    RunOneMore(db, ops, n);
    assert ops[n] in ops && o !in Run(db, ops[..n]).outputs;
    WhoInserts(Run(db, ops[..n]), ops[n], o);
  }

  ghost predicate NothingRevives(db: TokenDb, ops: seq<Op>, n: nat, o: OutputId, m: Time)
    requires n <= |ops|
  {
    forall i :: 0 <= i < n ==> !Revives(db, ops, i, o, m)
  }

  lemma AbsentOneMore(db: TokenDb, ops: seq<Op>, n: nat, o: OutputId)
    requires n < |ops|
    ensures AbsentUpTo(db, ops, n + 1, o) <==> AbsentUpTo(db, ops, n, o) && o !in Run(db, ops[..n + 1]).outputs
  {
  }

  lemma NothingOneMore(db: TokenDb, ops: seq<Op>, n: nat, o: OutputId, m: Time)
    requires n < |ops|
    ensures NothingRevives(db, ops, n + 1, o, m) <==> NothingRevives(db, ops, n, o, m) && !Revives(db, ops, n, o, m)
  {
  }

  lemma {:induction false} AbsentUntilRevived(db: TokenDb, ops: seq<Op>, n: nat, o: OutputId, m: Time)
    requires n <= |ops| && o !in db.outputs && o in db.spent && db.spent[o] == m
    requires forall op :: op in ops ==> !WritesByName(op, o)
    ensures AbsentUpTo(db, ops, n, o) <==> NothingRevives(db, ops, n, o, m)
  {
    if n == 0 {
      assert ops[..0] == [];
    } else {
      AbsentUntilRevived(db, ops, n - 1, o, m);
      AbsentOneMore(db, ops, n - 1, o);
      NothingOneMore(db, ops, n - 1, o, m);
      if AbsentUpTo(db, ops, n - 1, o) {
        BackWithOperation(db, ops, n - 1, o, m);
      }
    }
  }

  /** The exact condition, over whole runs. As long as nothing writes the output by name, a spent output stays away for
      ever if and only if no committed refresh that reports it started after the marker the spend left or follows a
      committed refresh that started more than five minutes after that marker. With an older marker in place the
      bound is the older time, not the time of the spend. */
  lemma ResurrectionExactly(db: TokenDb, spend: Op, ops: seq<Op>, o: OutputId)
    requires Spends(db, spend, o)
    requires forall op :: op in ops ==> !WritesByName(op, o)
    ensures var mid, m := Step(db, spend), (if o in db.spent then db.spent[o] else spend.now);
            AbsentUpTo(mid, ops, |ops|, o) <==> NothingRevives(mid, ops, |ops|, o, m)
  {
    SpendMarks(db, spend, o);
    AbsentUntilRevived(Step(db, spend), ops, |ops|, o, (if o in db.spent then db.spent[o] else spend.now));
  }

  /* ---------- the older marker matters: a run from the empty store ---------- */

  function Gone(spent: map<OutputId, Time>): TokenDb {
    TokenDb(map[], map[], map[], spent, None)
  }

  lemma SpendCoin(addedAt: Time, spent: map<OutputId, Time>, at: Time, until: Time, id: ReservationId)
    ensures Spends(Reserved(addedAt, spent, at, id), FinalizeOp(until, id), "x")
    ensures Step(Reserved(addedAt, spent, at, id), FinalizeOp(until, id)) == Gone(Marked(spent, {"x"}, until))
  {
    var db := Reserved(addedAt, spent, at, id);
    assert HeldBy(db.outputs, id) == {"x"};
    assert db.outputs - {"x"} == map[] && db.reservations - {id} == map[];
    assert WithoutOrphans(db.metadata, map[]) == map[];
  }

  lemma ReportCoin(spent: map<OutputId, Time>, now: Time, start: Time)
    requires forall o :: o in spent ==> spent[o] < start <= spent[o] + SPENT_MARKER_CLEANUP_THRESHOLD_MS
    ensures Step(Gone(spent), SetOp(now, [WALLET], start)) == Holding(now, spent)
  {
    var db := Gone(spent);
    OneOutput(now);
    assert [WALLET][..0] == [];
    assert IncomingRows([], now) == map[] && IncomingRows([WALLET], now) == CoinRow(None, now);
    assert MetadataOf([]) == map[] && MetadataOf([WALLET]) == map["gold" := GOLD];
    assert RecentlySpent(db, start) == {};
    assert KeptRows(db.outputs, start, IncomingIds([WALLET])) == map[];
    assert WithoutOrphans(db.metadata, map[]) == map[];
    assert KeptReservations(db, IncomingIds([WALLET])) == map[];
    assert Refreshed(db, now, [WALLET], start).spent == spent;
  }

  lemma ReserveAndSpend(ops: seq<Op>, addedAt: Time, spent: map<OutputId, Time>, at: Time, until: Time,
                        id: ReservationId)
    requires Reaches(ops, Holding(addedAt, spent))
    ensures Reaches(ops + [Reserving(at, id)], Reserved(addedAt, spent, at, id))
    ensures Reaches(ops + [Reserving(at, id)] + [FinalizeOp(until, id)], Gone(Marked(spent, {"x"}, until)))
  {
    ReserveCoin(addedAt, spent, at, id);
    ReachesOneMore(ops, Holding(addedAt, spent), Reserving(at, id));
    SpendCoin(addedAt, spent, at, until, id);
    ReachesOneMore(ops + [Reserving(at, id)], Reserved(addedAt, spent, at, id), FinalizeOp(until, id));
  }

  /** The output is received and spent at 10. */
  function FirstPayment(): seq<Op> {
    [] + [InsertOp(0, WALLET)] + [Reserving(1, "first")] + [FinalizeOp(10, "first")]
  }

  /** A refresh that started at 20 reports it again, and it is reserved again. */
  function ReportedAgain(): seq<Op> {
    FirstPayment() + [SetOp(21, [WALLET], 20)] + [Reserving(30, "second")]
  }

  lemma FirstPaymentReaches()
    ensures Reaches(FirstPayment(), Gone(map["x" := 10]))
  {
    var none: map<OutputId, Time> := map[];
    assert Reaches([], EmptyTokenDb);
    ReceiveCoin(0);
    ReachesOneMore([], EmptyTokenDb, InsertOp(0, WALLET));
    ReserveAndSpend([] + [InsertOp(0, WALLET)], 0, none, 1, 10, "first");
    assert Marked(none, {"x"}, 10) == map["x" := 10];
  }

  lemma ReportedAgainReaches(marked: map<OutputId, Time>)
    requires marked == map["x" := 10]
    ensures Reaches(ReportedAgain(), Reserved(21, marked, 30, "second"))
  {
    FirstPaymentReaches();
    ReportCoin(marked, 21, 20);
    ReachesOneMore(FirstPayment(), Gone(marked), SetOp(21, [WALLET], 20));
    ReserveAndSpend(FirstPayment() + [SetOp(21, [WALLET], 20)], 21, marked, 30, 40, "second");
  }

  lemma SecondPayment(marked: map<OutputId, Time>)
    requires marked == map["x" := 10]
    ensures var paying := Reserved(21, marked, 30, "second");
            var paid := Step(paying, FinalizeOp(40, "second"));
            && Spends(paying, FinalizeOp(40, "second"), "x")
            && "x" !in paid.outputs && "x" in Step(paid, SetOp(50, [WALLET], 35)).outputs
  {
    SpendCoin(21, marked, 30, 40, "second");
    assert Marked(marked, {"x"}, 40) == marked;
    ReportCoin(marked, 50, 35);
  }

  /** Spent again at 40, the output keeps its marker at 10, and a refresh that started at 35 revives it. */
  lemma OlderMarkerRevivesASpentOutput()
    ensures exists paying ::
              && Reaches(ReportedAgain(), paying) && paying.spent == map["x" := 10]
              && Spends(paying, FinalizeOp(40, "second"), "x")
              && var paid := Step(paying, FinalizeOp(40, "second"));
                 "x" !in paid.outputs && "x" in Step(paid, SetOp(50, [WALLET], 35)).outputs
  {
    var marked: map<OutputId, Time> := map["x" := 10];
    ReportedAgainReaches(marked);
    SecondPayment(marked);
    assert Reserved(21, marked, 30, "second").spent == marked;
  }
}
