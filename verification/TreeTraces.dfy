/** Runs of the leaf store from the empty store that show what can go wrong, and why hypotheses are needed. */
module TreeTraces {
  import opened Prelude
  import opened LeafSelection
  import opened TreeTables
  import opened TreeRuns
  import opened TreeReservations
  import opened TreeSpent

  const COIN := TreeNode("x", 8, Available, "")

  function CoinRow(reservation: Option<ReservationId>, addedAt: Time): LeafRow {
    LeafRow("Available", false, reservation, COIN, addedAt)
  }

  function Coin(reservation: Option<ReservationId>, addedAt: Time): map<LeafId, LeafRow> {
    map["x" := CoinRow(reservation, addedAt)]
  }

  function Reserving(at: Time, id: ReservationId): Op { ReserveOp(at, ["x"], id, None, true, Payment) }

  function Spending(until: Time, id: ReservationId): Op { FinalizeOp(until, id, None) }

  ghost predicate Reaches(ops: seq<Op>, db: TreeDb) {
    PossibleRun(EmptyDb, ops) && Run(EmptyDb, ops) == db
  }

  lemma ReachesOneMore(ops: seq<Op>, db: TreeDb, op: Op)
    requires Reaches(ops, db) && Possible(db, op)
    ensures Reaches(ops + [op], Step(db, op))
  {
    var longer := ops + [op];
    assert longer[..|ops|] == ops;
    forall i | 0 <= i < |longer| ensures Possible(Run(EmptyDb, longer[..i]), longer[i]) {
      if i < |ops| { assert longer[..i] == ops[..i]; }
    }
  }

  lemma ReserveCoin(db: TreeDb, at: Time, addedAt: Time, id: ReservationId)
    requires db.leaves == Coin(None, addedAt) && db.reservations == map[]
    ensures Step(db, Reserving(at, id))
         == db.(leaves := Coin(Some(id), addedAt), reservations := map[id := ReservationRow(Payment, 0, at)])
    ensures Possible(db, Reserving(at, id))
  {
    CoinIsChosen(db, addedAt);
    assert Ids([COIN]) == {"x"};
    assert Assigned(db.leaves, {"x"}, id) == Coin(Some(id), addedAt);
  }

  lemma CoinIsChosen(db: TreeDb, addedAt: Time)
    requires db.leaves == Coin(None, addedAt) && db.reservations == map[]
    ensures PendingSum(db.reservations) == 0 && ReserveDecision(db, ["x"], None, true) == Take([COIN], 0)
  {
    assert ["x"][..0] == [] && AvailableLeaves(db.leaves, []) == [];
    assert AvailableLeaves(db.leaves, ["x"]) == [COIN];
    assert [COIN] + [] == [COIN];
  }

  lemma FinalizeCoin(db: TreeDb, until: Time, addedAt: Time, id: ReservationId)
    requires db.leaves == Coin(Some(id), addedAt) && id in db.reservations && db.reservations[id].purpose == Payment
    requires db.reservations.Keys == {id}
    ensures Spends(db, Spending(until, id), "x")
    ensures Step(db, Spending(until, id))
         == db.(leaves := map[], reservations := map[], spent := Marked(db.spent, {"x"}, until))
  {
    assert Held(db.leaves, id) == {"x"};
    assert db.leaves - {"x"} == map[];
    assert db.reservations - {id} == map[];
  }

  /** A refresh that reports the coin brings it back when no marker protects it. */
  lemma RefreshCoin(db: TreeDb, now: Time, start: Time)
    requires db.leaves == map[] && db.reservations == map[] && db.lastCompletedAt == None
    requires forall x :: x in db.spent ==> db.spent[x] < start <= db.spent[x] + SPENT_MARKER_CLEANUP_THRESHOLD_MS
    ensures Step(db, SetOp(now, [COIN], [], start)) == db.(leaves := Coin(None, now))
  {
    assert RecentlySpent(db, start) == {};
    WithoutNothing([COIN], {});
    WithoutNothing([], {});
    CoinById();
    assert Refreshed(db, now, start, [COIN], []).leaves == Coin(None, now);
    assert Refreshed(db, now, start, [COIN], []).spent == db.spent;
    assert db.reservations - Stale(db, now) == map[];
  }

  lemma CoinById()
    ensures ById([COIN]) == map["x" := COIN]
  {
    assert [COIN][..0] == [];
  }

  /** A refresh that reports nothing, more than five minutes after all markers, clears them. */
  lemma RefreshNothing(db: TreeDb, now: Time, start: Time)
    requires db.leaves == map[] && db.reservations == map[] && db.lastCompletedAt == None
    requires forall x :: x in db.spent ==> db.spent[x] + SPENT_MARKER_CLEANUP_THRESHOLD_MS < start
    ensures Step(db, SetOp(now, [], [], start)) == EmptyDb
  {
    WithoutNothing([], RecentlySpent(db, start));
    assert Refreshed(db, now, start, [], []).leaves == map[];
    assert Refreshed(db, now, start, [], []).spent == map[];
    assert db.reservations - Stale(db, now) == map[];
  }

  /** Reserving and spending the coin. */
  lemma ReserveAndSpend(ops: seq<Op>, db: TreeDb, addedAt: Time, at: Time, until: Time, id: ReservationId)
    requires Reaches(ops, db)
    requires db.leaves == Coin(None, addedAt) && db.reservations == map[] && db.lastCompletedAt == None
    ensures var before := Step(db, Reserving(at, id));
            && Reaches(ops + [Reserving(at, id)], before) && before.spent == db.spent
            && Spends(before, Spending(until, id), "x")
            && Reaches(ops + [Reserving(at, id)] + [Spending(until, id)],
                       TreeDb(map[], map[], Marked(db.spent, {"x"}, until), None))
  {
    ReserveCoin(db, at, addedAt, id);
    ReachesOneMore(ops, db, Reserving(at, id));
    var before := Step(db, Reserving(at, id));
    FinalizeCoin(before, until, addedAt, id);
    ReachesOneMore(ops + [Reserving(at, id)], before, Spending(until, id));
  }

  lemma ClaimCoin()
    ensures Step(EmptyDb, AddOp(0, [COIN])) == TreeDb(Coin(None, 0), map[], map[], None)
  {
    var none: map<LeafId, Time> := map[];
    CoinById();
    assert Upserted(map[], ById([COIN]), false, 0) == Coin(None, 0);
    assert none - Ids([COIN]) == none;
  }

  /** The coin is claimed and paid away at 10. */
  function FirstPayment(): seq<Op> {
    [] + [AddOp(0, [COIN])] + [Reserving(1, "first")] + [Spending(10, "first")]
  }

  lemma FirstPaymentReaches()
    ensures Reaches(FirstPayment(), TreeDb(map[], map[], map["x" := 10], None))
  {
    var none: map<LeafId, Time> := map[];
    assert Reaches([], EmptyDb);
    ClaimCoin();
    ReachesOneMore([], EmptyDb, AddOp(0, [COIN]));
    ReserveAndSpend([] + [AddOp(0, [COIN])], TreeDb(Coin(None, 0), map[], none, None), 0, 1, 10, "first");
    assert Marked(none, {"x"}, 10) == map["x" := 10];
  }

  /** It is then reported again by a refresh that started at 20, and reserved again. */
  function ReportedAgain(): seq<Op> {
    FirstPayment() + [SetOp(21, [COIN], [], 20)] + [Reserving(30, "second")]
  }

  lemma ReportedAgainReaches(paying: TreeDb)
    requires paying.leaves == Coin(Some("second"), 21) && paying.spent == map["x" := 10]
    requires paying.reservations == map["second" := ReservationRow(Payment, 0, 30)] && paying.lastCompletedAt == None
    ensures Reaches(ReportedAgain(), paying)
  {
    var gone := TreeDb(map[], map[], map["x" := 10], None);
    FirstPaymentReaches();
    RefreshCoin(gone, 21, 20);
    ReachesOneMore(FirstPayment(), gone, SetOp(21, [COIN], [], 20));
    var back := gone.(leaves := Coin(None, 21));
    ReserveCoin(back, 30, 21, "second");
    ReachesOneMore(FirstPayment() + [SetOp(21, [COIN], [], 20)], back, Reserving(30, "second"));
  }

  lemma SecondPayment(paying: TreeDb)
    requires paying.leaves == Coin(Some("second"), 21) && paying.spent == map["x" := 10]
    requires paying.reservations == map["second" := ReservationRow(Payment, 0, 30)] && paying.lastCompletedAt == None
    ensures var paid := Step(paying, Spending(40, "second"));
            && Spends(paying, Spending(40, "second"), "x")
            && "x" !in paid.leaves && "x" in Step(paid, SetOp(50, [COIN], [], 35)).leaves
  {
    FinalizeCoin(paying, 40, 21, "second");
    var paid := Step(paying, Spending(40, "second"));
    assert paid.spent == map["x" := 10];
    RefreshCoin(paid, 50, 35);
  }

  /** An older marker matters. The second payment, at 40, leaves the marker at 10: a refresh that started at 35,
      before that payment, revives the coin. */
  lemma OlderMarkerRevivesASpentLeaf()
    ensures exists paying ::
              && Reaches(ReportedAgain(), paying) && paying.spent == map["x" := 10]
              && Spends(paying, Spending(40, "second"), "x")
              && var paid := Step(paying, Spending(40, "second"));
                 "x" !in paid.leaves && "x" in Step(paid, SetOp(50, [COIN], [], 35)).leaves
  {
    var held := map["second" := ReservationRow(Payment, 0, 30)];
    var paying := TreeDb(Coin(Some("second"), 21), held, map["x" := 10], None);
    ReportedAgainReaches(paying);
    SecondPayment(paying);
  }

  /** The five minutes matter. A refresh that started more than five minutes after the payment at 10 clears the
      marker; a refresh that started at 5, before the payment, and is applied after that revives the coin. */
  lemma LateRefreshForgetsTheMarker()
    ensures var late := SetOp(300_020, [], [], 300_011);
            exists cleared ::
              && Reaches(FirstPayment() + [late], cleared) && "x" !in cleared.leaves
              && "x" in Step(cleared, SetOp(300_021, [COIN], [], 5)).leaves
  {
    var gone := TreeDb(map[], map[], map["x" := 10], None);
    FirstPaymentReaches();
    RefreshNothing(gone, 300_020, 300_011);
    ReachesOneMore(FirstPayment(), gone, SetOp(300_020, [], [], 300_011));
    RefreshCoin(EmptyDb, 300_021, 5);
  }

  /* ---------- an abandoned swap ---------- */

  function Swapping(at: Time, id: ReservationId): Op { ReserveOp(at, ["x"], id, None, true, Swap) }

  /** The coin, held by the swap "s" since time 1. */
  function Abandoned(): TreeDb {
    TreeDb(Coin(Some("s"), 0), map["s" := ReservationRow(Swap, 0, 1)], map[], None)
  }

  lemma SwapCoin(db: TreeDb, at: Time, addedAt: Time, id: ReservationId)
    requires db.leaves == Coin(None, addedAt) && db.reservations == map[]
    ensures Step(db, Swapping(at, id))
         == db.(leaves := Coin(Some(id), addedAt), reservations := map[id := ReservationRow(Swap, 0, at)])
    ensures Possible(db, Swapping(at, id))
  {
    CoinIsChosen(db, addedAt);
    assert Ids([COIN]) == {"x"};
    assert Assigned(db.leaves, {"x"}, id) == Coin(Some(id), addedAt);
  }

  /** A client claims the coin, reserves it for a swap and crashes. Long after the timeout of 300 seconds a refresh
      that reports the coin as it is changes nothing: the swap still holds it. */
  lemma AbandonedSwapIsKept()
    ensures Reaches([] + [AddOp(0, [COIN])] + [Swapping(1, "s")], Abandoned())
    ensures 400_000 > 1 + RESERVATION_TIMEOUT_MS && Held(Abandoned().leaves, "s") == {"x"}
    ensures Step(Abandoned(), SetOp(400_000, [COIN], [], 399_999)) == Abandoned()
  {
    assert Reaches([], EmptyDb);
    ClaimCoin();
    ReachesOneMore([], EmptyDb, AddOp(0, [COIN]));
    SwapCoin(TreeDb(Coin(None, 0), map[], map[], None), 1, 0, "s");
    ReachesOneMore([] + [AddOp(0, [COIN])], TreeDb(Coin(None, 0), map[], map[], None), Swapping(1, "s"));
    assert "s" in Abandoned().reservations && Abandoned().reservations["s"].purpose == Swap;
  }

  /* ---------- two swaps that finish out of order ---------- */

  const NOTE := TreeNode("y", 4, Available, "")

  function Both(x: Option<ReservationId>, y: Option<ReservationId>): map<LeafId, LeafRow> {
    map["x" := CoinRow(x, 0), "y" := LeafRow("Available", false, y, NOTE, 2)]
  }

  lemma AddNote(db: TreeDb)
    requires db.leaves == Coin(Some("s"), 0) && db.spent == map[]
    ensures Step(db, AddOp(2, [NOTE])) == db.(leaves := Both(Some("s"), None))
  {
    assert [NOTE][..0] == [];
    assert ById([NOTE]) == map["y" := NOTE];
    assert Upserted(db.leaves, map["y" := NOTE], false, 2) == Both(Some("s"), None);
    assert db.spent - Ids([NOTE]) == db.spent;
  }

  function SwapNote(): Op { ReserveOp(3, ["x", "y"], "t", None, true, Swap) }

  lemma NoteIsChosen(db: TreeDb)
    requires db.leaves == Both(Some("s"), None) && db.reservations == map["s" := ReservationRow(Swap, 0, 1)]
    ensures PendingSum(db.reservations) == 0 && ReserveDecision(db, ["x", "y"], None, true) == Take([NOTE], 0)
  {
    assert ["x", "y"][..1] == ["x"] && ["x"][..0] == [] && AvailableLeaves(db.leaves, []) == [];
    assert AvailableLeaves(db.leaves, ["x"]) == [];
    assert AvailableLeaves(db.leaves, ["x", "y"]) == [NOTE];
    assert [NOTE] + [] == [NOTE];
    var pending := PendingAmounts(db.reservations);
    assert db.reservations.Keys == {"s"};
    SumRemove({"s"}, pending, "s");
    assert {"s"} - {"s"} == {} && SumOver({}, pending) == 0;
  }

  lemma ReserveNote(db: TreeDb)
    requires db.leaves == Both(Some("s"), None) && db.reservations == map["s" := ReservationRow(Swap, 0, 1)]
    ensures Step(db, SwapNote())
         == db.(leaves := Both(Some("s"), Some("t")),
                reservations := db.reservations["t" := ReservationRow(Swap, 0, 3)])
    ensures Possible(db, SwapNote())
  {
    NoteIsChosen(db);
    assert Ids([NOTE]) == {"y"};
    assert Assigned(db.leaves, {"y"}, "t") == Both(Some("s"), Some("t"));
  }

  /** Two swaps are under way, one for the coin and one for the note. */
  function TwoSwaps(): seq<Op> {
    [] + [AddOp(0, [COIN])] + [Swapping(1, "s")] + [AddOp(2, [NOTE])] + [SwapNote()]
  }

  lemma TwoSwapsReach(db: TreeDb)
    requires db == TreeDb(Both(Some("s"), Some("t")),
                          map["s" := ReservationRow(Swap, 0, 1), "t" := ReservationRow(Swap, 0, 3)], map[], None)
    ensures Reaches(TwoSwaps(), db)
  {
    AbandonedSwapIsKept();
    AddNote(Abandoned());
    ReachesOneMore([] + [AddOp(0, [COIN])] + [Swapping(1, "s")], Abandoned(), AddOp(2, [NOTE]));
    var both := Abandoned().(leaves := Both(Some("s"), None));
    ReserveNote(both);
    ReachesOneMore([] + [AddOp(0, [COIN])] + [Swapping(1, "s")] + [AddOp(2, [NOTE])], both, SwapNote());
    assert both.reservations["t" := ReservationRow(Swap, 0, 3)] == db.reservations;
  }

  /** Finalizing a swap without new leaves to store. */
  function Finishing(until: Time, id: ReservationId): Op { FinalizeOp(until, id, Some([])) }

  lemma FinishFirst(db: TreeDb)
    requires db == TreeDb(Both(Some("s"), Some("t")),
                          map["s" := ReservationRow(Swap, 0, 1), "t" := ReservationRow(Swap, 0, 3)], map[], None)
    ensures Step(db, Finishing(20, "s"))
         == TreeDb(map["y" := LeafRow("Available", false, Some("t"), NOTE, 2)],
                   map["t" := ReservationRow(Swap, 0, 3)], map["x" := 20], Some(20))
  {
    assert Held(db.leaves, "s") == {"x"};
    var left := db.leaves - {"x"};
    assert left == map["y" := LeafRow("Available", false, Some("t"), NOTE, 2)];
    assert Upserted(left, map[], false, 20) == left;
    assert db.reservations - {"s"} == map["t" := ReservationRow(Swap, 0, 3)];
    assert Marked(db.spent, {"x"}, 20) == map["x" := 20];
  }

  lemma FinishSecond(db: TreeDb)
    requires db == TreeDb(map["y" := LeafRow("Available", false, Some("t"), NOTE, 2)],
                          map["t" := ReservationRow(Swap, 0, 3)], map["x" := 20], Some(20))
    ensures var after := Step(db, Finishing(10, "t"));
            after.leaves == map[] && after.reservations == map[] && after.lastCompletedAt == Some(10)
  {
    assert Held(db.leaves, "t") == {"y"};
    assert db.leaves - {"y"} == map[];
    var none: map<LeafId, LeafRow> := map[];
    assert Upserted(none, map[], false, 10) == none;
    assert db.reservations - {"t"} == map[];
  }

  lemma NothingListed(db: TreeDb)
    requires db.reservations == map[] && db.lastCompletedAt == Some(10)
    ensures RefreshCommits(db, 15, [], [])
  {
  }

  predicate IsTwoSwaps(db: TreeDb) {
    db == TreeDb(Both(Some("s"), Some("t")), map["s" := ReservationRow(Swap, 0, 1), "t" := ReservationRow(Swap, 0, 3)],
                 map[], None)
  }

  lemma BothStamp(swaps: TreeDb)
    requires IsTwoSwaps(swaps)
    ensures var one := Step(swaps, Finishing(20, "s"));
            && Stamps(swaps, Finishing(20, "s")) && Stamps(one, Finishing(10, "t"))
            && !RefreshCommits(one, 15, [], []) && RefreshCommits(Step(one, Finishing(10, "t")), 15, [], [])
  {
    FinishFirst(swaps);
    var one := Step(swaps, Finishing(20, "s"));
    FinishSecond(one);
    NothingListed(Step(one, Finishing(10, "t")));
  }

  lemma BothFinish(swaps: TreeDb)
    requires IsTwoSwaps(swaps)
    ensures Reaches(TwoSwaps() + [Finishing(20, "s")] + [Finishing(10, "t")],
                    Step(Step(swaps, Finishing(20, "s")), Finishing(10, "t")))
  {
    TwoSwapsReach(swaps);
    ReachesOneMore(TwoSwaps(), swaps, Finishing(20, "s"));
    ReachesOneMore(TwoSwaps() + [Finishing(20, "s")], Step(swaps, Finishing(20, "s")), Finishing(10, "t"));
  }

  /** The order of completion times matters. The first swap finalizes at 20. The transaction of the second started at
      10 but gets the lock later, and sets the completion time back: a refresh that started at 15, before the first
      swap completed, is applied. */
  lemma EarlierStampLetsOldRefreshIn()
    ensures exists swaps ::
              && IsTwoSwaps(swaps) && Stamps(swaps, Finishing(20, "s"))
              && var one := Step(swaps, Finishing(20, "s"));
                 && Stamps(one, Finishing(10, "t")) && !RefreshCommits(one, 15, [], [])
                 && var last := Step(one, Finishing(10, "t"));
                    && Reaches(TwoSwaps() + [Finishing(20, "s")] + [Finishing(10, "t")], last)
                    && RefreshCommits(last, 15, [], [])
  {
    var swaps := TreeDb(Both(Some("s"), Some("t")),
                        map["s" := ReservationRow(Swap, 0, 1), "t" := ReservationRow(Swap, 0, 3)], map[], None);
    assert IsTwoSwaps(swaps);
    BothStamp(swaps);
    BothFinish(swaps);
  }
}
