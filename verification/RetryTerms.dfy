/** The retry loops in plain terms: what stops them, what they report and how long they wait, read off the answers of
    the services (crates/spark-wallet/src/wallet.rs). */
module RetryTerms {
  import opened Prelude
  import opened WalletRetry

  /* ---------- one request ---------- */

  /** The leaves are reserved at once, or by the second call when the optimizer was in the way. */
  predicate Obtains(d: Desk, i: nat) {
    d.first(i) == Reserved || (d.first(i) == InsufficientFunds && d.optimizing(i) && d.second(i) == Reserved)
  }

  function CallsMade(d: Desk, i: nat): nat {
    if d.first(i) == InsufficientFunds && d.optimizing(i) then 2 else 1
  }

  predicate RefreshesWithEnough(d: Desk, i: nat) {
    d.refresh(i) && d.enough(i) != Some(false)
  }

  /** Try n of the three is the last one: every earlier one fails and is followed by a refresh that works and leaves
      enough balance, and n reserves, is the third, or is not followed by such a refresh. */
  predicate LastTry(d: Desk, n: nat) {
    && n <= 2
    && (forall j: nat :: j < n ==> !Obtains(d, j) && RefreshesWithEnough(d, j))
    && (Obtains(d, n) || n == 2 || !RefreshesWithEnough(d, n))
  }

  /** A request reports its last try: whether it reserved, the calls of all tries, a refresh after every failed try
      and a sleep between two tries. */
  lemma RequestExactly(d: Desk)
    ensures exists n: nat ::
              && LastTry(d, n)
              && SelectRun(d) == SelectReport(
                   Obtains(d, n),
                   CallsMade(d, 0) + (if n >= 1 then CallsMade(d, 1) else 0) + (if n >= 2 then CallsMade(d, 2) else 0),
                   if Obtains(d, n) then n else n + 1,
                   n)
  {
    assert SelectFrom(d, 3) == SelectReport(false, 0, 0, 0);
    if Obtains(d, 0) || !RefreshesWithEnough(d, 0) {
      assert LastTry(d, 0);
    } else if Obtains(d, 1) || !RefreshesWithEnough(d, 1) {
      assert LastTry(d, 1);
      assert SelectFrom(d, 1) == SelectReport(Obtains(d, 1), CallsMade(d, 1), if Obtains(d, 1) then 0 else 1, 0);
    } else {
      ThirdTry(d);
      assert LastTry(d, 2);
    }
  }

  lemma ThirdTry(d: Desk)
    requires !Obtains(d, 0) && RefreshesWithEnough(d, 0) && !Obtains(d, 1) && RefreshesWithEnough(d, 1)
    ensures SelectRun(d) == SelectReport(Obtains(d, 2), CallsMade(d, 0) + CallsMade(d, 1) + CallsMade(d, 2),
                                         if Obtains(d, 2) then 2 else 3, 2)
  {
    var third := if Obtains(d, 2) then 0 else 1;
    assert SelectFrom(d, 3) == SelectReport(false, 0, 0, 0);
    assert SelectFrom(d, 2) == SelectReport(Obtains(d, 2), CallsMade(d, 2), third, 0);
    assert SelectFrom(d, 1) == SelectReport(Obtains(d, 2), CallsMade(d, 1) + CallsMade(d, 2), third + 1, 1);
  }

  /* ---------- the operation loop ---------- */

  /** Which failures count against which budget. */
  lemma FailureClasses(o: Outcome)
    ensures RateLimited(o) <==>
              o == ConnectionError(ResourceExhausted, true) || o == ConnectionError(ResourceExhausted, false)
    ensures LeavesSpent(o) <==>
              || o == ConnectionError(PermissionDenied, true) || o == ConnectionError(PermissionDenied, false)
              || o == ConnectionError(OtherCode, true)
  {
  }

  /** The waits are 100, 200, 400, 800 and 1600 ms. */
  lemma WaitsAre(k: nat)
    requires 1 <= k <= 5
    ensures Delay(k) == [100, 200, 400, 800, 1600][k - 1]
    ensures TotalDelay(k) == [100, 300, 700, 1500, 3100][k - 1]
  {
    assert Power(1) == 2 && Power(2) == 4 && Power(3) == 8 && Power(4) == 16;
    assert TotalDelay(1) == 100 && TotalDelay(2) == 300 && TotalDelay(3) == 700 && TotalDelay(4) == 1500;
  }

  /** Iterations from a on and before b that start with a refresh: those after a spent-leaf failure. */
  function RefreshingFirst(w: World, a: nat, b: nat): nat
    decreases b - a
  {
    if a >= b then 0 else (if Spent(w, a) > 0 then 1 else 0) + RefreshingFirst(w, a + 1, b)
  }

  /** The iteration the loop stops in: that of the last operation, or the one after it if that does not get so far. */
  function LastIteration(r: Report): int {
    if r.ending.Done? || r.ending.RateLimitExceeded? || r.ending.Failed? then r.operations - 1 else r.operations
  }

  /** What each ending means in iteration m. */
  predicate EndsFor(w: World, m: nat, ending: Ending) {
    match ending
    case OutOfAttempts => Spent(w, m) == 3
    case RefreshFailed => 0 < Spent(w, m) < 3 && !w.refresh(m)
    case ReserveFailed => Spent(w, m) < 3 && (Spent(w, m) > 0 ==> w.refresh(m)) && !w.reserve(m)
    case Done => Operates(w, m) && w.operate(m) == Success
    case RateLimitExceeded => Operates(w, m) && RateLimited(w.operate(m)) && Limited(w, m) == 5
    case Failed => Operates(w, m) && w.operate(m) != Success && !RateLimited(w.operate(m)) && !LeavesSpent(w.operate(m))
  }

  /** The iterations from i on and before m operate and fail in a way that is retried. */
  predicate AllRetried(w: World, i: nat, m: nat) {
    forall j: nat :: i <= j < m ==> Operates(w, j) && Retryable(w.operate(j))
  }

  /** From iteration i on, with `refreshes` made before: the iterations before the last are retried, the last
      one ends for its reason, and the refreshes and the waiting time are those of the iterations. */
  ghost predicate Account(w: World, i: nat, refreshes: nat, r: Report) {
    var m := LastIteration(r);
    && i <= m && AllRetried(w, i, m) && Closes(w, m, r)
    && r.refreshes == refreshes + RefreshingFirst(w, i, RefreshesUntil(r))
  }

  predicate Closes(w: World, m: nat, r: Report) {
    EndsFor(w, m, r.ending) && Limited(w, m) <= 5 && r.backoffMs == TotalDelay(Limited(w, m))
  }

  /** The last iteration refreshes too unless the budget was gone. */
  function RefreshesUntil(r: Report): int {
    if r.ending == OutOfAttempts then LastIteration(r) else LastIteration(r) + 1
  }

  lemma AccountNow(w: World, i: nat, refreshes: nat)
    requires InBudget(At(w, i, refreshes)) && Iteration(w, i, At(w, i, refreshes)).End?
    ensures Account(w, i, refreshes, Iteration(w, i, At(w, i, refreshes)).report)
  {
    assert RefreshingFirst(w, i + 1, i + 1) == 0;
  }

  lemma AccountEarlier(w: World, i: nat, refreshes: nat, more: nat, r: Report)
    requires Operates(w, i) && Retryable(w.operate(i)) && Account(w, i + 1, more, r)
    requires more == refreshes + if Spent(w, i) > 0 then 1 else 0
    ensures Account(w, i, refreshes, r)
  {
    var m := LastIteration(r);
    RetriedEarlier(w, i, m);
    OneMoreFirst(w, i, RefreshesUntil(r));
  }

  lemma RetriedEarlier(w: World, i: nat, m: nat)
    requires Operates(w, i) && Retryable(w.operate(i)) && AllRetried(w, i + 1, m)
    ensures AllRetried(w, i, m)
  {
  }

  lemma OneMoreFirst(w: World, a: nat, b: nat)
    requires a < b
    ensures RefreshingFirst(w, a, b) == (if Spent(w, a) > 0 then 1 else 0) + RefreshingFirst(w, a + 1, b)
  {
  }

  lemma {:induction false} LoopAccount(w: World, i: nat, refreshes: nat)
    requires InBudget(At(w, i, refreshes))
    ensures Account(w, i, refreshes, Loop(w, i, At(w, i, refreshes)))
    decreases MAX_LEAF_SPENT_RETRIES + MAX_RATE_LIMIT_RETRIES - Spent(w, i) - Limited(w, i)
  {
    var t := Iteration(w, i, At(w, i, refreshes));
    IterationIs(w, i, refreshes);
    if t.Again? {
      LoopAccount(w, i + 1, t.state.refreshes);
      AccountEarlier(w, i, refreshes, t.state.refreshes, Loop(w, i + 1, t.state));
    } else {
      AccountNow(w, i, refreshes);
    }
  }

  /** The whole report of the retry loop. */
  lemma RetryExactly(w: World)
    ensures Account(w, 0, 0, Retry(w))
  {
    LoopAccount(w, 0, 0);
  }
}
