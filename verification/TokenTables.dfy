/** The tables of the PostgreSQL token output store and what each committed transaction does to them
    (crates/spark-postgres/src/token_store.rs). */
module TokenTables {
  import opened Prelude
  import opened TokenSelection

  type TokenId = string
  type ReservationId = string

  /** Milliseconds. */
  type Time = int

  const SPENT_MARKER_CLEANUP_THRESHOLD_MS: Time := 5 * 60 * 1000

  datatype TokenMetadata = TokenMetadata(identifier: TokenId, body: string)
  datatype TokenOutputs = TokenOutputs(metadata: TokenMetadata, outputs: seq<TokenOutput>)
  datatype Purpose = Payment | Swap
  datatype OutputRow = OutputRow(token: TokenId, output: TokenOutput, reservation: Option<ReservationId>, addedAt: Time)
  datatype ReservationRow = ReservationRow(purpose: Purpose, createdAt: Time)

  datatype TokenDb = TokenDb(
    metadata: map<TokenId, TokenMetadata>,
    outputs: map<OutputId, OutputRow>,
    reservations: map<ReservationId, ReservationRow>,
    spent: map<OutputId, Time>,
    lastCompletedAt: Option<Time>)

  const EmptyTokenDb := TokenDb(map[], map[], map[], map[], None)

  /** The foreign keys, and rows filed under their own ids. */
  predicate Consistent(db: TokenDb) {
    && (forall o :: o in db.outputs ==>
          && db.outputs[o].output.id == o
          && db.outputs[o].token in db.metadata
          && (db.outputs[o].reservation.Some? ==> db.outputs[o].reservation.value in db.reservations))
    && (forall t :: t in db.metadata ==> db.metadata[t].identifier == t)
  }

  function HeldBy(outputs: map<OutputId, OutputRow>, r: ReservationId): set<OutputId> {
    set o | o in outputs && outputs[o].reservation == Some(r)
  }

  function TokensOf(outputs: map<OutputId, OutputRow>): set<TokenId> {
    set o | o in outputs :: outputs[o].token
  }

  function WithoutOrphans(metadata: map<TokenId, TokenMetadata>, outputs: map<OutputId, OutputRow>)
    : map<TokenId, TokenMetadata>
  {
    map t | t in metadata && t in TokensOf(outputs) :: metadata[t]
  }

  function Ids(outputs: seq<TokenOutput>): set<OutputId> {
    set o | o in outputs :: o.id
  }

  function IncomingIds(incoming: seq<TokenOutputs>): set<OutputId> {
    set to, o | to in incoming && o in to.outputs :: o.id
  }

  /** Metadata upserts: the last of one token wins. */
  function MetadataOf(incoming: seq<TokenOutputs>): map<TokenId, TokenMetadata> {
    if incoming == [] then map[]
    else
      var last := incoming[|incoming| - 1].metadata;
      MetadataOf(incoming[..|incoming| - 1])[last.identifier := last]
  }

  /** Output inserts ON CONFLICT DO NOTHING: the first row of one id wins. */
  function RowsOf(token: TokenId, outputs: seq<TokenOutput>, now: Time): map<OutputId, OutputRow> {
    if outputs == [] then map[]
    else
      var before := RowsOf(token, outputs[..|outputs| - 1], now);
      var last := outputs[|outputs| - 1];
      if last.id in before then before else before[last.id := OutputRow(token, last, None, now)]
  }

  function IncomingRows(incoming: seq<TokenOutputs>, now: Time): map<OutputId, OutputRow> {
    if incoming == [] then map[]
    else
      var last := incoming[|incoming| - 1];
      RowsOf(last.metadata.identifier, last.outputs, now) + IncomingRows(incoming[..|incoming| - 1], now)
  }

  function Inserted(rows: map<OutputId, OutputRow>, more: map<OutputId, OutputRow>, skip: set<OutputId>)
    : map<OutputId, OutputRow>
  {
    map o | o in rows.Keys + (more.Keys - skip) :: if o in rows then rows[o] else more[o]
  }

  lemma IncomingStep(incoming: seq<TokenOutputs>, i: nat, now: Time)
    requires i < |incoming|
    ensures var to := incoming[i];
            && MetadataOf(incoming[..i + 1]) == MetadataOf(incoming[..i])[to.metadata.identifier := to.metadata]
            && IncomingRows(incoming[..i + 1], now)
               == RowsOf(to.metadata.identifier, to.outputs, now) + IncomingRows(incoming[..i], now)
  {
    assert incoming[..i + 1][..i] == incoming[..i];
  }

  lemma {:induction false} RowsOfAre(token: TokenId, outputs: seq<TokenOutput>, now: Time)
    ensures var rows := RowsOf(token, outputs, now);
            && rows.Keys == Ids(outputs)
            && (forall o :: o in rows ==> rows[o].output.id == o && rows[o].token == token
                                          && rows[o].reservation.None? && rows[o].addedAt == now)
  {
    if outputs != [] {
      var k := |outputs| - 1;
      RowsOfAre(token, outputs[..k], now);
      assert outputs == outputs[..k] + [outputs[k]];
    }
  }

  lemma {:induction false} IncomingRowsAre(incoming: seq<TokenOutputs>, now: Time)
    ensures var rows := IncomingRows(incoming, now);
            && rows.Keys == IncomingIds(incoming)
            && (forall o :: o in rows ==> rows[o].output.id == o && rows[o].token in MetadataOf(incoming)
                                          && rows[o].reservation.None? && rows[o].addedAt == now)
  {
    if incoming != [] {
      var k := |incoming| - 1;
      IncomingRowsAre(incoming[..k], now);
      RowsOfAre(incoming[k].metadata.identifier, incoming[k].outputs, now);
      assert incoming == incoming[..k] + [incoming[k]];
      assert IncomingIds(incoming) == IncomingIds(incoming[..k]) + Ids(incoming[k].outputs);
    }
  }

  lemma {:induction false} MetadataOfAre(incoming: seq<TokenOutputs>)
    ensures forall t :: t in MetadataOf(incoming) ==> MetadataOf(incoming)[t].identifier == t
    ensures MetadataOf(incoming).Keys == set to | to in incoming :: to.metadata.identifier
  {
    if incoming != [] {
      var k := |incoming| - 1;
      MetadataOfAre(incoming[..k]);
      assert incoming == incoming[..k] + [incoming[k]];
    }
  }

  /* ---------- set_tokens_outputs ---------- */

  predicate RefreshBlocked(db: TokenDb, start: Time) {
    || (exists r :: r in db.reservations && db.reservations[r].purpose == Swap)
    || (db.lastCompletedAt.Some? && db.lastCompletedAt.value >= start)
  }

  function RecentlySpent(db: TokenDb, start: Time): set<OutputId> {
    set o | o in db.spent && db.spent[o] >= start
  }

  /** What survives the deletes: free outputs added since the refresh started and reserved outputs reported again. */
  function KeptRows(outputs: map<OutputId, OutputRow>, start: Time, incoming: set<OutputId>): map<OutputId, OutputRow> {
    map o | o in outputs && (if outputs[o].reservation.Some? then o in incoming else outputs[o].addedAt >= start)
      :: outputs[o]
  }

  /** Reservations that held something, none of which is reported any more. */
  function LostReservations(db: TokenDb, incoming: set<OutputId>): set<ReservationId> {
    set r | r in db.reservations && HeldBy(db.outputs, r) != {} && HeldBy(db.outputs, r) !! incoming
  }

  /** Reserved outputs that are gone although their reservation keeps some other output. */
  function LostOutputs(outputs: map<OutputId, OutputRow>, incoming: set<OutputId>): set<OutputId> {
    set o | o in outputs && outputs[o].reservation.Some? && o !in incoming
            && !(HeldBy(outputs, outputs[o].reservation.value) !! incoming)
  }

  function EmptyReservations(db: TokenDb): set<ReservationId> {
    set r | r in db.reservations && HeldBy(db.outputs, r) == {}
  }

  function KeptReservations(db: TokenDb, ids: set<OutputId>): map<ReservationId, ReservationRow> {
    db.reservations - LostReservations(db, ids)
    - (if LostOutputs(db.outputs, ids) != {} then EmptyReservations(db) else {})
  }

  /** A committed refresh as set expressions. */
  function Refreshed(db: TokenDb, now: Time, incoming: seq<TokenOutputs>, start: Time): TokenDb {
    var ids := IncomingIds(incoming);
    var kept := KeptRows(db.outputs, start, ids);
    TokenDb(
      WithoutOrphans(db.metadata, kept) + MetadataOf(incoming),
      Inserted(kept, IncomingRows(incoming, now), RecentlySpent(db, start)),
      KeptReservations(db, ids),
      map o | o in db.spent && db.spent[o] >= start - SPENT_MARKER_CLEANUP_THRESHOLD_MS :: db.spent[o],
      db.lastCompletedAt)
  }

  function SetTokensOutputs(db: TokenDb, now: Time, incoming: seq<TokenOutputs>, start: Time): TokenDb {
    if RefreshBlocked(db, start) then db else Refreshed(db, now, incoming, start)
  }

  /* ---------- insert_token_outputs ---------- */

  function InsertTokenOutputs(db: TokenDb, now: Time, to: TokenOutputs): TokenDb {
    db.(metadata := db.metadata[to.metadata.identifier := to.metadata],
        outputs := Inserted(db.outputs, RowsOf(to.metadata.identifier, to.outputs, now), {}),
        spent := db.spent - Ids(to.outputs))
  }

  /* ---------- reserve, cancel, finalize ---------- */

  /** `order` is the order in which the database returns the output rows. */
  ghost predicate Lists(order: seq<OutputId>, outputs: map<OutputId, OutputRow>) {
    && (forall i, j :: 0 <= i < j < |order| ==> order[i] != order[j])
    && (forall o :: o in order <==> o in outputs)
  }

  predicate Candidate(row: OutputRow, token: TokenId, preferred: Option<set<OutputId>>) {
    row.token == token && row.reservation.None? && (preferred.Some? ==> row.output.id in preferred.value)
  }

  function Candidates(outputs: map<OutputId, OutputRow>, order: seq<OutputId>, token: TokenId,
                      preferred: Option<set<OutputId>>): seq<TokenOutput>
  {
    if order == [] then []
    else
      var o := order[|order| - 1];
      var before := Candidates(outputs, order[..|order| - 1], token, preferred);
      if o in outputs && Candidate(outputs[o], token, preferred) then before + [outputs[o].output] else before
  }

  datatype Request = Request(token: TokenId, target: ReservationTarget, purpose: Purpose,
                             preferred: Option<set<OutputId>>, strategy: Option<SelectionStrategy>)

  predicate ZeroRequest(target: ReservationTarget) {
    match target
    case MinTotalValue(amount) => amount == 0
    case MaxOutputCount(count) => count == 0
  }

  function ReserveAnswer(db: TokenDb, order: seq<OutputId>, id: ReservationId, q: Request)
    : Result<TokenOutputs, TokenError>
  {
    if ZeroRequest(q.target) then Err(ZeroTarget)
    else if q.token !in db.metadata then Err(TokenNotFound)
    else
      match Chosen(Candidates(db.outputs, order, q.token, q.preferred), q.target, q.strategy)
      case Err(e) => Err(e)
      case Ok(selected) =>
        if id in db.reservations then Err(DatabaseError) else Ok(TokenOutputs(db.metadata[q.token], selected))
  }

  function Assigned(outputs: map<OutputId, OutputRow>, ids: set<OutputId>, id: ReservationId)
    : map<OutputId, OutputRow>
  {
    map o | o in outputs :: if o in ids then outputs[o].(reservation := Some(id)) else outputs[o]
  }

  function Reserve(db: TokenDb, now: Time, order: seq<OutputId>, id: ReservationId, q: Request): TokenDb {
    match ReserveAnswer(db, order, id, q)
    case Err(_) => db
    case Ok(to) =>
      db.(reservations := db.reservations[id := ReservationRow(q.purpose, now)],
          outputs := Assigned(db.outputs, Ids(to.outputs), id))
  }

  function Released(outputs: map<OutputId, OutputRow>, gone: set<ReservationId>): map<OutputId, OutputRow> {
    map o | o in outputs ::
      if outputs[o].reservation.Some? && outputs[o].reservation.value in gone
      then outputs[o].(reservation := None) else outputs[o]
  }

  function Cancel(db: TokenDb, id: ReservationId): TokenDb {
    db.(outputs := Released(db.outputs, {id}), reservations := db.reservations - {id})
  }

  function Marked(spent: map<OutputId, Time>, ids: set<OutputId>, now: Time): map<OutputId, Time> {
    map o | o in spent.Keys + ids :: if o in spent then spent[o] else now
  }

  function Finalize(db: TokenDb, now: Time, id: ReservationId): TokenDb {
    if id !in db.reservations then db
    else
      var held := HeldBy(db.outputs, id);
      TokenDb(
        WithoutOrphans(db.metadata, db.outputs - held),
        db.outputs - held,
        db.reservations - {id},
        Marked(db.spent, held, now),
        if db.reservations[id].purpose == Swap then Some(now) else db.lastCompletedAt)
  }
}
