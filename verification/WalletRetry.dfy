/** The wallet's retry loops: with_leafs_spent_retry! and select_leaves_with_retry (crates/spark-wallet/src/wallet.rs).
    What the services answer is given by a function of the call's position, so a statement about every such
    function is a statement about every sequence of outcomes. */
module WalletRetry {
  import opened Prelude

  const SELECT_LEAVES_MAX_RETRIES: nat := 3
  const MAX_LEAF_SPENT_RETRIES: nat := 3
  const MAX_RATE_LIMIT_RETRIES: nat := 5
  const RATE_LIMIT_BASE_DELAY_MS: nat := 100
  const RATE_LIMIT_MAX_DELAY_MS: nat := 3000

  /* ---------- select_leaves_with_retry ---------- */

  datatype Selection = Reserved | InsufficientFunds | OtherFailure

  /** The answers in try i: select_leaves the first and the second time, whether the optimizer runs, the refresh
      after a failure, and the balance check (None when no target is given). */
  datatype Desk = Desk(first: nat -> Selection, second: nat -> Selection, optimizing: nat -> bool,
                       refresh: nat -> bool, enough: nat -> Option<bool>)

  datatype SelectReport = SelectReport(reserved: bool, calls: nat, refreshes: nat, sleeps: nat)

  function TryCalls(d: Desk, i: nat): nat {
    if d.first(i).InsufficientFunds? && d.optimizing(i) then 2 else 1
  }

  predicate TryReserves(d: Desk, i: nat) {
    || d.first(i).Reserved?
    || (d.first(i).InsufficientFunds? && d.optimizing(i) && d.second(i).Reserved?)
  }

  /** try_select_leaves_with_optimization_retry */
  method TrySelect(d: Desk, i: nat) returns (ok: bool, calls: nat)
    ensures ok == TryReserves(d, i) && calls == TryCalls(d, i)
  {
    match d.first(i)
    case Reserved => return true, 1;
    case OtherFailure => return false, 1;
    case InsufficientFunds =>
      if !d.optimizing(i) {
        return false, 1;
      }
      return d.second(i).Reserved?, 2;
  }

  /** After try i failed, the refresh works and leaves enough balance. */
  predicate GoesOn(d: Desk, i: nat) {
    !TryReserves(d, i) && d.refresh(i) && d.enough(i) != Some(false)
  }

  /** The tries from try i on. */
  function SelectFrom(d: Desk, i: nat): SelectReport
    requires i <= SELECT_LEAVES_MAX_RETRIES
    decreases SELECT_LEAVES_MAX_RETRIES - i, d
  {
    if i == SELECT_LEAVES_MAX_RETRIES then SelectReport(false, 0, 0, 0)
    else if TryReserves(d, i) then SelectReport(true, TryCalls(d, i), 0, 0)
    else if !GoesOn(d, i) then SelectReport(false, TryCalls(d, i), 1, 0)
    else
      var later := SelectFrom(d, i + 1);
      SelectReport(later.reserved, TryCalls(d, i) + later.calls, 1 + later.refreshes,
                   (if i < SELECT_LEAVES_MAX_RETRIES - 1 then 1 else 0) + later.sleeps)
  }

  function SelectRun(d: Desk): SelectReport { SelectFrom(d, 0) }

  /** Try k is the first to reserve, and every try from i on before it can be followed by another. */
  predicate ReservesAt(d: Desk, i: nat, k: nat) {
    i <= k < SELECT_LEAVES_MAX_RETRIES && TryReserves(d, k) && forall j :: i <= j < k ==> GoesOn(d, j)
  }

  lemma ReservesLater(d: Desk, i: nat, k: nat)
    ensures TryReserves(d, i) ==> (ReservesAt(d, i, k) <==> k == i < SELECT_LEAVES_MAX_RETRIES)
    ensures !TryReserves(d, i) ==> (ReservesAt(d, i, k) <==> GoesOn(d, i) && ReservesAt(d, i + 1, k))
  {
    if i < k {
      assert ReservesAt(d, i, k) ==> GoesOn(d, i);
    }
  }

  lemma {:induction false} SelectFromIff(d: Desk, i: nat)
    requires i <= SELECT_LEAVES_MAX_RETRIES
    ensures SelectFrom(d, i).reserved <==> exists k: nat :: ReservesAt(d, i, k)
    ensures forall k: nat :: ReservesAt(d, i, k) ==> SelectFrom(d, i).refreshes == k - i
    decreases SELECT_LEAVES_MAX_RETRIES - i
  {
    if i < SELECT_LEAVES_MAX_RETRIES {
      forall k: nat
        ensures TryReserves(d, i) ==> (ReservesAt(d, i, k) <==> k == i)
        ensures !TryReserves(d, i) ==> (ReservesAt(d, i, k) <==> GoesOn(d, i) && ReservesAt(d, i + 1, k))
      {
        ReservesLater(d, i, k);
      }
      if TryReserves(d, i) {
        assert ReservesAt(d, i, i);
      } else {
        SelectFromIff(d, i + 1);
        if GoesOn(d, i) && SelectFrom(d, i + 1).reserved {
          var k: nat :| ReservesAt(d, i + 1, k);
          assert ReservesAt(d, i, k);
        }
      }
    }
  }

  /** A request succeeds exactly when one of three tries reserves and every try before it was followed by a refresh
      that worked and left enough balance; there was one refresh after each of those and none after the last. */
  lemma SelectSucceedsIff(d: Desk)
    ensures SelectRun(d).reserved <==> exists k: nat :: ReservesAt(d, 0, k)
    ensures forall k: nat :: ReservesAt(d, 0, k) ==> SelectRun(d).refreshes == k
  {
    SelectFromIff(d, 0);
  }

  /** The tries from i on end with try n - 1: nothing stops an earlier one from being followed by another. */
  predicate Stops(d: Desk, i: nat, n: nat) {
    && i < n <= SELECT_LEAVES_MAX_RETRIES && (forall j :: i <= j < n - 1 ==> GoesOn(d, j))
    && (n == SELECT_LEAVES_MAX_RETRIES || !GoesOn(d, n - 1))
  }

  function Calls(d: Desk, i: nat, n: nat): nat
    decreases n - i
  {
    if i >= n then 0 else TryCalls(d, i) + Calls(d, i + 1, n)
  }

  lemma {:induction false} SelectFromAccount(d: Desk, i: nat)
    requires i < SELECT_LEAVES_MAX_RETRIES
    ensures var r := SelectFrom(d, i);
            exists n: nat :: Stops(d, i, n) && r.calls == Calls(d, i, n) && r.sleeps == n - 1 - i
                             && r.refreshes == n - i - (if r.reserved then 1 else 0)
    decreases SELECT_LEAVES_MAX_RETRIES - i
  {
    if !GoesOn(d, i) || i + 1 == SELECT_LEAVES_MAX_RETRIES {
      assert Stops(d, i, i + 1) && Calls(d, i, i + 1) == TryCalls(d, i);
    } else {
      var later := SelectFrom(d, i + 1);
      SelectFromAccount(d, i + 1);
      var n: nat :| Stops(d, i + 1, n) && later.calls == Calls(d, i + 1, n) && later.sleeps == n - 1 - (i + 1)
                    && later.refreshes == n - (i + 1) - (if later.reserved then 1 else 0);
      assert Stops(d, i, n);
    }
  }

  method SelectLeavesWithRetry(d: Desk) returns (r: SelectReport)
    ensures r == SelectRun(d)
    ensures r.reserved <==> exists k: nat :: ReservesAt(d, 0, k)
    ensures exists n: nat :: Stops(d, 0, n) && r.calls == Calls(d, 0, n) && r.sleeps == n - 1
                             && r.refreshes == (if r.reserved then n - 1 else n)
  {
    SelectSucceedsIff(d);
    SelectFromAccount(d, 0);
    var calls: nat, refreshes: nat, sleeps: nat := 0, 0, 0;
    for i := 0 to SELECT_LEAVES_MAX_RETRIES
      invariant var later := SelectFrom(d, i);
                SelectRun(d) == SelectReport(later.reserved, calls + later.calls, refreshes + later.refreshes,
                                             sleeps + later.sleeps)
    {
      var ok, made := TrySelect(d, i);
      calls := calls + made;
      if ok {
        return SelectReport(true, calls, refreshes, sleeps);
      }
      refreshes := refreshes + 1;
      if !d.refresh(i) {
        return SelectReport(false, calls, refreshes, sleeps);
      }
      if d.enough(i) == Some(false) {
        return SelectReport(false, calls, refreshes, sleeps);
      }
      if i < SELECT_LEAVES_MAX_RETRIES - 1 {
        sleeps := sleeps + 1;
      }
    }
    return SelectReport(false, calls, refreshes, sleeps);
  }

  lemma {:induction false} SelectFromBounds(d: Desk, i: nat)
    requires i <= SELECT_LEAVES_MAX_RETRIES
    ensures var r, left := SelectFrom(d, i), SELECT_LEAVES_MAX_RETRIES - i;
            && r.calls <= 2 * left && r.refreshes <= left
            && (left > 0 ==> r.sleeps <= left - 1 && r.calls >= 1) && (left == 0 ==> r.sleeps == 0)
            && (r.reserved ==> r.refreshes < left)
    decreases SELECT_LEAVES_MAX_RETRIES - i
  {
    if i < SELECT_LEAVES_MAX_RETRIES { SelectFromBounds(d, i + 1); }
  }

  /** One request makes at most six select_leaves calls, three refreshes (two when it succeeds) and two one-second
      sleeps. */
  lemma SelectBounds(d: Desk)
    ensures var r := SelectRun(d);
            && 1 <= r.calls <= 6 && r.refreshes <= 3 && r.sleeps <= 2
            && (r.reserved ==> r.refreshes <= 2)
  {
    SelectFromBounds(d, 0);
  }

  /* ---------- classifying errors ---------- */

  datatype GrpcCode = ResourceExhausted | PermissionDenied | OtherCode

  /** An operation succeeds, fails on the operator connection, or fails otherwise. */
  datatype Outcome =
    | Success
    | ConnectionError(code: GrpcCode, mentionsTransferLocked: bool)
    | OtherError

  /** The rate limit is tested first: such an error counts as rate limited even if it mentions a lock. */
  predicate RateLimited(o: Outcome) {
    o.ConnectionError? && o.code == ResourceExhausted
  }

  predicate LeavesSpent(o: Outcome) {
    o.ConnectionError? && !RateLimited(o) && (o.mentionsTransferLocked || o.code == PermissionDenied)
  }

  predicate Retryable(o: Outcome) { RateLimited(o) || LeavesSpent(o) }

  /* ---------- the operation loop ---------- */

  /** The answers in iteration i: the loop-top refresh, the reservation request, the operation. */
  datatype World = World(refresh: nat -> bool, reserve: nat -> bool, operate: nat -> Outcome)

  /** `desk(i)` is what the reservation request of iteration i meets; it reserves when `w` says so. */
  ghost predicate Faces(w: World, desk: nat -> Desk) {
    forall i: nat :: w.reserve(i) == SelectRun(desk(i)).reserved
  }

  datatype Ending = Done | OutOfAttempts | RateLimitExceeded | RefreshFailed | ReserveFailed | Failed

  datatype Report = Report(ending: Ending, operations: nat, refreshes: nat, backoffMs: nat)

  function Power(k: nat): nat {
    if k == 0 then 1 else 2 * Power(k - 1)
  }

  function Delay(rateAttempt: nat): nat
    requires rateAttempt > 0
  {
    var d := RATE_LIMIT_BASE_DELAY_MS * Power(rateAttempt - 1);
    if d < RATE_LIMIT_MAX_DELAY_MS then d else RATE_LIMIT_MAX_DELAY_MS
  }

  /** Waiting time after the first k rate-limited operations. */
  function TotalDelay(k: nat): nat {
    if k == 0 then 0 else TotalDelay(k - 1) + Delay(k)
  }

  /** The loop variables in front of an iteration. */
  datatype State = State(attempt: nat, rate: nat, refreshes: nat)

  predicate InBudget(s: State) {
    s.attempt <= MAX_LEAF_SPENT_RETRIES && s.rate <= MAX_RATE_LIMIT_RETRIES
  }

  datatype Turn = End(report: Report) | Again(state: State)

  function Stop(ending: Ending, operations: nat, s: State): Turn {
    End(Report(ending, operations, s.refreshes, TotalDelay(s.rate)))
  }

  /** Iteration i. */
  function Iteration(w: World, i: nat, s: State): (t: Turn)
    requires InBudget(s)
    ensures t.Again? ==>
              InBudget(t.state) && t.state.attempt + t.state.rate == s.attempt + s.rate + 1
  {
    var made := if s.attempt > 0 then s.(refreshes := s.refreshes + 1) else s;
    if s.attempt >= MAX_LEAF_SPENT_RETRIES then Stop(OutOfAttempts, i, s)
    else if s.attempt > 0 && !w.refresh(i) then Stop(RefreshFailed, i, made)
    else if !w.reserve(i) then Stop(ReserveFailed, i, made)
    else if w.operate(i) == Success then Stop(Done, i + 1, made)
    else if RateLimited(w.operate(i)) then
      if s.rate + 1 > MAX_RATE_LIMIT_RETRIES then Stop(RateLimitExceeded, i + 1, made)
      else Again(made.(rate := s.rate + 1))
    else if LeavesSpent(w.operate(i)) then Again(made.(attempt := s.attempt + 1))
    else Stop(Failed, i + 1, made)
  }

  function Loop(w: World, i: nat, s: State): Report
    requires InBudget(s)
    decreases MAX_LEAF_SPENT_RETRIES + MAX_RATE_LIMIT_RETRIES - s.attempt - s.rate
  {
    match Iteration(w, i, s)
    case End(report) => report
    case Again(t) => Loop(w, i + 1, t)
  }

  const Start := State(0, 0, 0)

  function Retry(w: World): Report {
    Loop(w, 0, Start)
  }

  /** Every operation was preceded by a request; a failed request by none. */
  function Requests(r: Report): nat {
    r.operations + if r.ending == ReserveFailed then 1 else 0
  }

  /** The requests of an operation, one for each iteration that got that far. */
  ghost predicate Made(w: World, desk: nat -> Desk, made: seq<SelectReport>) {
    |made| == Requests(Retry(w)) && AreRuns(desk, made)
  }

  ghost predicate AreRuns(desk: nat -> Desk, made: seq<SelectReport>) {
    forall j :: 0 <= j < |made| ==> made[j] == SelectRun(desk(j))
  }

  /** The reservation request of the next iteration. */
  method OneRequest(desk: nat -> Desk, i: nat, ghost made: seq<SelectReport>)
    returns (reserved: bool, ghost more: seq<SelectReport>)
    requires |made| == i && AreRuns(desk, made)
    ensures reserved == SelectRun(desk(i)).reserved && |more| == i + 1 && AreRuns(desk, more)
  {
    var selected := SelectLeavesWithRetry(desk(i));
    return selected.reserved, made + [selected];
  }

  method WithLeafsSpentRetry(w: World, desk: nat -> Desk) returns (r: Report, ghost made: seq<SelectReport>)
    requires Faces(w, desk)
    ensures r == Retry(w) && |made| == Requests(r) && AreRuns(desk, made)
  {
    var i: nat, attempt: nat, rateLimitAttempt: nat := 0, 0, 0;
    var refreshes: nat, backoff: nat := 0, 0;
    made := [];
    while true
      invariant InBudget(State(attempt, rateLimitAttempt, refreshes)) && backoff == TotalDelay(rateLimitAttempt)
      invariant Retry(w) == Loop(w, i, State(attempt, rateLimitAttempt, refreshes))
      invariant |made| == i && AreRuns(desk, made)
      decreases MAX_LEAF_SPENT_RETRIES + MAX_RATE_LIMIT_RETRIES - attempt - rateLimitAttempt
    {
      ghost var turn := Iteration(w, i, State(attempt, rateLimitAttempt, refreshes));
      if attempt > 0 {
        if attempt >= MAX_LEAF_SPENT_RETRIES {
          r := Report(OutOfAttempts, i, refreshes, backoff);
          assert turn == End(r);
          return;
        }
        var refreshed := w.refresh(i);
        refreshes := refreshes + 1;
        if !refreshed {
          r := Report(RefreshFailed, i, refreshes, backoff);
          assert turn == End(r);
          return;
        }
      }
      var reserved;
      reserved, made := OneRequest(desk, i, made);
      if !reserved {
        r := Report(ReserveFailed, i, refreshes, backoff);
        assert turn == End(r);
        return;
      }
      var outcome := w.operate(i);
      i := i + 1;
      if outcome == Success {
        r := Report(Done, i, refreshes, backoff);
        assert turn == End(r);
        return;
      }
      if RateLimited(outcome) {
        if rateLimitAttempt + 1 > MAX_RATE_LIMIT_RETRIES {
          r := Report(RateLimitExceeded, i, refreshes, backoff);
          assert turn == End(r);
          return;
        }
        rateLimitAttempt := rateLimitAttempt + 1;
        backoff := backoff + Delay(rateLimitAttempt);
        assert turn == Again(State(attempt, rateLimitAttempt, refreshes));
        continue;
      }
      if LeavesSpent(outcome) {
        attempt := attempt + 1;
        assert turn == Again(State(attempt, rateLimitAttempt, refreshes));
        continue;
      }
      r := Report(Failed, i, refreshes, backoff);
      assert turn == End(r);
      return;
    }
  }

  /* ---------- what the loop guarantees ---------- */

  lemma DelaysNeverCapped(k: nat)
    requires 1 <= k <= MAX_RATE_LIMIT_RETRIES
    ensures Delay(k) == RATE_LIMIT_BASE_DELAY_MS * Power(k - 1) < RATE_LIMIT_MAX_DELAY_MS
    ensures TotalDelay(k) <= 3100 && TotalDelay(MAX_RATE_LIMIT_RETRIES) == 3100
  {
    assert Power(1) == 2 && Power(2) == 4 && Power(3) == 8 && Power(4) == 16;
    assert TotalDelay(1) == 100 && TotalDelay(2) == 300 && TotalDelay(3) == 700 && TotalDelay(4) == 1500;
    assert TotalDelay(5) == 3100;
  }

  /** Iterations before this one, and the refreshes they can have made. */
  predicate OnTrack(i: nat, s: State) {
    InBudget(s) && i == s.attempt + s.rate && s.refreshes <= (if i == 0 then 0 else i - 1)
  }

  lemma {:induction false} LoopBounds(w: World, i: nat, s: State)
    requires OnTrack(i, s)
    ensures var r := Loop(w, i, s); r.operations <= 8 && r.refreshes <= 7 && r.backoffMs <= 3100
    decreases MAX_LEAF_SPENT_RETRIES + MAX_RATE_LIMIT_RETRIES - s.attempt - s.rate
  {
    if s.rate > 0 { DelaysNeverCapped(s.rate); }
    var t := Iteration(w, i, s);
    if t.Again? {
      LoopBounds(w, i + 1, t.state);
    }
  }

  /** Whatever the services answer: at most 8 operations, 7 loop-top refreshes and 3100 ms of backoff. */
  lemma RetryBounds(w: World)
    ensures Retry(w).operations <= 8 && Retry(w).refreshes <= 7 && Retry(w).backoffMs <= 3100
  {
    LoopBounds(w, 0, Start);
  }

  /** Spent leaves, five rate limits, spent leaves again: seven iterations that all end in a retry. */
  lemma SevenRetries(w: World)
    requires forall i :: 0 <= i < 7 ==> w.refresh(i) && w.reserve(i)
    requires forall i :: 0 <= i < 7 ==>
               if 1 <= i <= 5 then RateLimited(w.operate(i)) else LeavesSpent(w.operate(i))
    ensures Retry(w) == Loop(w, 7, State(2, 5, 6)) && TotalDelay(5) == 3100
  {
    DelaysNeverCapped(1);
    assert Iteration(w, 0, Start) == Again(State(1, 0, 0));
    assert Iteration(w, 1, State(1, 0, 0)) == Again(State(1, 1, 1));
    assert Iteration(w, 2, State(1, 1, 1)) == Again(State(1, 2, 2));
    assert Iteration(w, 3, State(1, 2, 2)) == Again(State(1, 3, 3));
    assert Iteration(w, 4, State(1, 3, 3)) == Again(State(1, 4, 4));
    assert Iteration(w, 5, State(1, 4, 4)) == Again(State(1, 5, 5));
    assert Iteration(w, 6, State(1, 5, 5)) == Again(State(2, 5, 6));
    assert Loop(w, 5, State(1, 4, 4)) == Loop(w, 7, State(2, 5, 6));
    assert Loop(w, 3, State(1, 2, 2)) == Loop(w, 5, State(1, 4, 4));
    assert Loop(w, 1, State(1, 0, 0)) == Loop(w, 3, State(1, 2, 2));
  }

  /** The bounds are reached together: spent leaves, five rate limits, spent leaves twice. */
  lemma RetryBoundsTight(w: World)
    requires forall i :: 0 <= i < 8 ==> w.refresh(i) && w.reserve(i)
    requires forall i :: 0 <= i < 8 ==>
               if 1 <= i <= 5 then RateLimited(w.operate(i)) else LeavesSpent(w.operate(i))
    ensures Retry(w) == Report(OutOfAttempts, 8, 7, 3100)
  {
    SevenRetries(w);
    assert Iteration(w, 7, State(2, 5, 6)) == Again(State(3, 5, 7));
    assert Loop(w, 8, State(3, 5, 7)) == Report(OutOfAttempts, 8, 7, 3100);
  }

  function Spent(w: World, n: nat): nat {
    if n == 0 then 0 else Spent(w, n - 1) + if LeavesSpent(w.operate(n - 1)) then 1 else 0
  }

  function Limited(w: World, n: nat): nat {
    if n == 0 then 0 else Limited(w, n - 1) + if RateLimited(w.operate(n - 1)) then 1 else 0
  }

  /** Iteration j gets as far as its operation. */
  predicate Operates(w: World, j: nat) {
    Spent(w, j) < MAX_LEAF_SPENT_RETRIES && (Spent(w, j) > 0 ==> w.refresh(j)) && w.reserve(j)
  }

  /** From iteration i on, the first operation to succeed is the one of iteration k and both budgets last. */
  predicate SucceedsFrom(w: World, i: nat, k: nat) {
    && i <= k && w.operate(k) == Success && Limited(w, k) <= MAX_RATE_LIMIT_RETRIES
    && (forall j :: i <= j < k ==> Retryable(w.operate(j)))
    && (forall j :: i <= j <= k ==> Operates(w, j))
  }

  lemma {:induction false} LimitedGrows(w: World, i: nat, k: nat)
    requires i <= k
    ensures Limited(w, i) <= Limited(w, k)
  {
    if i < k { LimitedGrows(w, i, k - 1); }
  }

  lemma SucceedsLater(w: World, i: nat, k: nat)
    requires i < k
    ensures SucceedsFrom(w, i, k) <==> Operates(w, i) && Retryable(w.operate(i)) && SucceedsFrom(w, i + 1, k)
    ensures SucceedsFrom(w, i, k) ==> Limited(w, i + 1) <= MAX_RATE_LIMIT_RETRIES
  {
    LimitedGrows(w, i + 1, k);
    if Operates(w, i) && Retryable(w.operate(i)) && SucceedsFrom(w, i + 1, k) {
      forall j | i <= j <= k ensures Operates(w, j) {}
      forall j | i <= j < k ensures Retryable(w.operate(j)) {}
    }
  }

  function At(w: World, i: nat, refreshes: nat): State {
    State(Spent(w, i), Limited(w, i), refreshes)
  }

  lemma IterationIs(w: World, i: nat, refreshes: nat)
    requires InBudget(At(w, i, refreshes))
    ensures var t := Iteration(w, i, At(w, i, refreshes));
            && (t.Again? <==> Operates(w, i) && Retryable(w.operate(i)) && Limited(w, i + 1) <= MAX_RATE_LIMIT_RETRIES)
            && (t.Again? ==> t.state == At(w, i + 1, t.state.refreshes))
            && (t.End? ==> (t.report.ending == Done <==> Operates(w, i) && w.operate(i) == Success))
            && (t.End? && t.report.ending == Done ==> t.report.operations == i + 1)
  {
  }

  /** The verdict on iterations i and later: success is exactly the first success within the budgets. */
  ghost predicate Verdict(w: World, i: nat, r: Report) {
    && (r.ending == Done ==> r.operations > i && SucceedsFrom(w, i, r.operations - 1))
    && (forall k: nat :: SucceedsFrom(w, i, k) ==> r.ending == Done && r.operations == k + 1)
  }

  lemma VerdictEarlier(w: World, i: nat, r: Report)
    requires Operates(w, i) && Retryable(w.operate(i)) && Verdict(w, i + 1, r)
    ensures Verdict(w, i, r)
  {
    if r.ending == Done {
      SucceedsLater(w, i, r.operations - 1);
    }
    forall k: nat | SucceedsFrom(w, i, k) ensures r.ending == Done && r.operations == k + 1 {
      assert k != i;
      SucceedsLater(w, i, k);
    }
  }

  lemma VerdictNow(w: World, i: nat, refreshes: nat)
    requires InBudget(At(w, i, refreshes)) && Iteration(w, i, At(w, i, refreshes)).End?
    ensures Verdict(w, i, Iteration(w, i, At(w, i, refreshes)).report)
  {
    IterationIs(w, i, refreshes);
    forall k: nat | SucceedsFrom(w, i, k) ensures k == i && Operates(w, i) && w.operate(i) == Success {
      if k > i {
        SucceedsLater(w, i, k);
      } else {
        assert Operates(w, k);
      }
    }
  }

  lemma {:induction false} LoopSucceedsIff(w: World, i: nat, refreshes: nat)
    requires InBudget(At(w, i, refreshes))
    ensures Verdict(w, i, Loop(w, i, At(w, i, refreshes)))
    decreases MAX_LEAF_SPENT_RETRIES + MAX_RATE_LIMIT_RETRIES - Spent(w, i) - Limited(w, i)
  {
    var t := Iteration(w, i, At(w, i, refreshes));
    IterationIs(w, i, refreshes);
    if t.Again? {
      LoopSucceedsIff(w, i + 1, t.state.refreshes);
      VerdictEarlier(w, i, Loop(w, i + 1, t.state));
    } else {
      VerdictNow(w, i, refreshes);
    }
  }

  /** The loop ends in success exactly when some operation succeeds before three spent-leaf failures or six rate
      limits, every earlier one being retryable, and every reservation and needed refresh on the way works;
      it then performs no operation after that one. */
  lemma RetrySucceedsIff(w: World)
    ensures Retry(w).ending == Done <==> exists k: nat :: SucceedsFrom(w, 0, k)
    ensures forall k: nat :: SucceedsFrom(w, 0, k) ==> Retry(w).operations == k + 1
  {
    LoopSucceedsIff(w, 0, 0);
  }

  /* ---------- both loops together ---------- */

  /** Operations from i on follow a successful request, and a request that fails is at most the eighth. */
  predicate Reserved8(w: World, i: nat, r: Report) {
    && r.operations >= i && (forall j: nat :: i <= j < r.operations ==> w.reserve(j))
    && (r.ending == ReserveFailed ==> r.operations <= 7)
  }

  lemma ReservedEarlier(w: World, i: nat, r: Report)
    requires w.reserve(i) && Reserved8(w, i + 1, r)
    ensures Reserved8(w, i, r)
  {
  }

  lemma EndReserves(w: World, i: nat, s: State)
    requires OnTrack(i, s) && Iteration(w, i, s).End?
    ensures Reserved8(w, i, Iteration(w, i, s).report)
  {
    var r := Iteration(w, i, s).report;
    assert r.operations == i || (r.operations == i + 1 && w.reserve(i));
    assert r.ending == ReserveFailed ==> r.operations == i && s.attempt < MAX_LEAF_SPENT_RETRIES;
  }

  lemma AgainReserves(w: World, i: nat, s: State)
    requires OnTrack(i, s) && Iteration(w, i, s).Again?
    ensures w.reserve(i) && OnTrack(i + 1, Iteration(w, i, s).state)
  {
  }

  lemma {:induction false} LoopReserves(w: World, i: nat, s: State)
    requires OnTrack(i, s)
    ensures Reserved8(w, i, Loop(w, i, s))
    decreases MAX_LEAF_SPENT_RETRIES + MAX_RATE_LIMIT_RETRIES - s.attempt - s.rate
  {
    var t := Iteration(w, i, s);
    if t.Again? {
      AgainReserves(w, i, s);
      LoopReserves(w, i + 1, t.state);
      ReservedEarlier(w, i, Loop(w, i + 1, t.state));
      assert Loop(w, i, s) == Loop(w, i + 1, t.state);
    } else {
      EndReserves(w, i, s);
      assert Loop(w, i, s) == t.report;
    }
  }

  /** All that the requests did together. */
  function Together(made: seq<SelectReport>): SelectReport {
    if made == [] then SelectReport(true, 0, 0, 0)
    else
      var before, s := Together(made[..|made| - 1]), made[|made| - 1];
      SelectReport(before.reserved && s.reserved, before.calls + s.calls, before.refreshes + s.refreshes,
                   before.sleeps + s.sleeps)
  }

  predicate WithinBounds(s: SelectReport) {
    s.calls <= 6 && s.refreshes <= 3 && s.sleeps <= 2 && (s.reserved ==> s.refreshes <= 2)
  }

  lemma {:induction false} TogetherBounds(made: seq<SelectReport>)
    requires forall s :: s in made ==> WithinBounds(s)
    requires forall j :: 0 <= j < |made| - 1 ==> made[j].reserved
    ensures var t, n := Together(made), |made|;
            && t.calls <= 6 * n && t.sleeps <= 2 * n
            && t.refreshes <= 2 * n + (if n > 0 && !made[n - 1].reserved then 1 else 0)
  {
    if made != [] {
      TogetherBounds(made[..|made| - 1]);
      assert WithinBounds(made[|made| - 1]);
    }
  }

  lemma MadeAreWithinBounds(w: World, desk: nat -> Desk, made: seq<SelectReport>)
    requires Faces(w, desk) && Made(w, desk, made)
    ensures forall s :: s in made ==> WithinBounds(s)
    ensures forall j :: 0 <= j < |made| ==> made[j].reserved == w.reserve(j)
  {
    forall s | s in made ensures WithinBounds(s) {
      var j :| 0 <= j < |made| && made[j] == s;
      SelectBounds(desk(j));
    }
  }

  /** A whole retried operation, whatever the services answer: at most 48 select_leaves calls, 24 refreshes at the
      top of the loop and inside the requests together, and 16 one-second sleeps besides the backoff. */
  lemma WholeOperationBounds(w: World, desk: nat -> Desk, made: seq<SelectReport>)
    requires Faces(w, desk) && Made(w, desk, made)
    ensures var t := Together(made); t.calls <= 48 && Retry(w).refreshes + t.refreshes <= 24 && t.sleeps <= 16
  {
    var r := Retry(w);
    RetryBounds(w);
    LoopReserves(w, 0, Start);
    MadeAreWithinBounds(w, desk, made);
    TogetherBounds(made);
    if r.ending != ReserveFailed && made != [] {
      assert w.reserve(r.operations - 1);
    }
  }

  /** A request that reserves, or fails, in its third try, with a second call in each. */
  predicate Tedious(d: Desk, reserves: bool) {
    forall i :: 0 <= i < 3 ==>
      && d.first(i) == InsufficientFunds && d.optimizing(i) && d.refresh(i) && d.enough(i) != Some(false)
      && d.second(i) == if reserves && i == 2 then Reserved else OtherFailure
  }

  lemma TediousRun(d: Desk, reserves: bool)
    requires Tedious(d, reserves)
    ensures SelectRun(d) == if reserves then SelectReport(true, 6, 2, 2) else SelectReport(false, 6, 3, 2)
  {
    assert SelectFrom(d, 3) == SelectReport(false, 0, 0, 0);
    assert SelectFrom(d, 2) == if reserves then SelectReport(true, 2, 0, 0) else SelectReport(false, 2, 1, 0);
    assert SelectFrom(d, 1) == if reserves then SelectReport(true, 4, 1, 1) else SelectReport(false, 4, 2, 1);
  }

  /** These bounds too are reached together: seven requests succeed late, the eighth fails late. */
  lemma WholeOperationBoundsTight(w: World, desk: nat -> Desk, made: seq<SelectReport>)
    requires Faces(w, desk) && Made(w, desk, made)
    requires forall i: nat :: i < 8 ==> w.refresh(i) && Tedious(desk(i), i < 7)
    requires forall i: nat :: i < 7 ==> if 1 <= i <= 5 then RateLimited(w.operate(i)) else LeavesSpent(w.operate(i))
    ensures Retry(w) == Report(ReserveFailed, 7, 7, 3100)
    ensures Together(made) == SelectReport(false, 48, 17, 16)
  {
    forall i: nat | i < 8
      ensures SelectRun(desk(i)) == if i < 7 then SelectReport(true, 6, 2, 2) else SelectReport(false, 6, 3, 2)
    {
      TediousRun(desk(i), i < 7);
    }
    EighthRequestFails(w);
    TediousTogether(made[..7]);
    assert made[..|made| - 1] == made[..7];
  }

  lemma EighthRequestFails(w: World)
    requires forall i: nat :: i < 8 ==> w.refresh(i) && w.reserve(i) == (i < 7)
    requires forall i: nat :: i < 7 ==> if 1 <= i <= 5 then RateLimited(w.operate(i)) else LeavesSpent(w.operate(i))
    ensures Retry(w) == Report(ReserveFailed, 7, 7, 3100)
  {
    SevenRetries(w);
    assert Iteration(w, 7, State(2, 5, 6)) == End(Report(ReserveFailed, 7, 7, TotalDelay(5)));
  }

  lemma {:induction false} TediousTogether(made: seq<SelectReport>)
    requires forall j :: 0 <= j < |made| ==> made[j] == SelectReport(true, 6, 2, 2)
    ensures Together(made) == SelectReport(true, 6 * |made|, 2 * |made|, 2 * |made|)
  {
    if made != [] { TediousTogether(made[..|made| - 1]); }
  }
}
