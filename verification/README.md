# Breez SDK storage, selection and quoting: a Dafny model

The project models the parts of the SDK in which several instances share state or in which money is chosen and
priced, and proves what they guarantee.

- **Leaf store** (`TreeTables`, `TreeStore`, `TreeRuns`, `TreeReservations`, `TreeSpent`, `TreeValue`, `TreeTraces`,
  `TreeEffects`).
  The four tables of the PostgreSQL tree store are fields of a class; each public operation is a method that performs
  the statements of its transaction and rolls back on error. Every method is proved equal to one function on the tables.
  A run is any sequence of such transactions by any number of instances; each carries its own transaction time, which
  need not grow.
- **Leaf selection** (`LeafSelection`, `SelectionCompleteness`, `SelectionTerms`, `PowersOfTwo`). Exact, denomination and
  minimum-amount selection.
- **Token output store** (`TokenTables`, `TokenStore`, `TokenRuns`, `TokenEffects`, `TokenSelection`). Reconciling
  refresh, metadata upkeep, greedy selection.
- **Quotes and pool choice** (`Quote`, `QuoteTerms`, `PoolSelection`, `PoolRanking`). 128-bit checked and saturating
  arithmetic written out.
- **Migration runner, wallet retry loops, benchmark histogram** (`Migrations`, `MigrationTerms`, `WalletRetry`,
  `RetryTerms`, `Histogram`, `HistogramTerms`).

Each operation is proved twice over. The method performs the source's steps and is proved equal to a function on the
tables or inputs; and a second module (`TreeEffects`, `TokenEffects`, `QuoteTerms`, `PoolRanking`, `SelectionTerms`,
`RetryTerms`, `HistogramTerms`, `MigrationTerms`) says what the operation gives: row by row and column by column, or by
inequalities over the inputs, without the functions that compute it.

## What was found

- *A spent leaf can come back.* A spent marker is inserted with ON CONFLICT DO NOTHING, so a leaf that is spent, reported
  again and spent again keeps the time of the first spend: a refresh that started between the two times revives it
  (`TreeTraces.OlderMarkerRevivesASpentLeaf`, a run from the empty store). A refresh that started more than five minutes
  after a marker clears it, and one that started before the spend can then revive the leaf
  (`TreeTraces.LateRefreshForgetsTheMarker`). `TreeSpent.ResurrectionExactly` says exactly when either happens. The token
  store has the same rules (`TokenRuns.OlderMarkerRevivesASpentOutput`, `TokenRuns.ResurrectionExactly`).
- *A swap reservation left by a crashed client never times out.* The comment at crates/spark-postgres/src/tree_store.rs:36
  says that stale reservations are cleaned up to release the leaves of crashed clients. A refresh returns before that
  cleanup while any swap reservation lives: `TreeTraces.AbandonedSwapIsKept` is such a run, `TreeReservations.TimesOutIff`
  says exactly when a reservation times out, and `TreeReservations.SwapBlocksRefreshes` that no refresh changes anything
  until the swap is finalized or cancelled.
- *A token refresh can lose a new output.* The comment at crates/spark-postgres/src/token_store.rs:102 says that outputs
  added after the refresh started are preserved. That holds only while they are free: one that was reserved in between
  and could not be in the refresh data is deleted together with its reservation
  (`TokenRuns.LaterAdditionSurvivesIff`, `TokenRuns.RefreshDropsALaterAddition`). The leaf store does not have this
  problem (`TreeSpent.AdditionNotLost`).
- *The quote can be one unit short.* The ceiling division adds with saturation; `Quote.ReserveQuoteExact` says exactly
  when the result still keeps the constant product and that one unit more always does, `Quote.PaymentKeepsProductIff`
  when the payment with its fee does, and `Quote.SaturationUndercharges` is an input where it does not.
- *Missing liquidity can outscore a little liquidity.* Of two pools with the same price and stability the one without
  any liquidity can have the higher total (`PoolSelection.ShallowLosesToMissing`); `PoolSelection.DeeperIsNoWorseIff`
  says for which liquidities a deeper pool never has the lower total.
- *Explicit histogram bounds that are not a whole number of buckets apart count some samples twice*
  (`Histogram.UnalignedEndCountsTwice`); they count every sample once if and only if the distance is a whole number of
  buckets (`Histogram.ExplicitBoundsCountOnceIff`).
- *The exact selection can miss a subset* (`LeafSelection.GreedyMissesAnExactSubset`). It never does on leaves of given
  values if and only if these values divide each other, as powers of two do (`SelectionCompleteness.SearchNeverMissesIff`,
  `SelectionCompleteness.TargetsNeverMissedIff`).
- *The completion time of swaps can go back.* A finalize whose transaction started earlier but commits later lowers it,
  and a refresh that should be blocked is applied (`TreeTraces.EarlierStampLetsOldRefreshIn`). It stays at or after a
  given time if and only if no such finalize goes back before it (`TreeReservations.CompletionStaysIff`).

## Modelling choices

- Time is in milliseconds. The start of a transaction, the order in which the database returns rows, reservation ids and
  the outcomes of remote services are parameters.
- A batch that would update one row twice is an error in PostgreSQL: the transaction rolls back and the operation
  returns an error. The same holds for a reservation id that already exists.
- `data` and `status` of a leaf row are separate columns, as in the schema; that they agree is proved, not assumed.
- Leaf values, sums and 128-bit token amounts are natural numbers; where the code casts or caps, the cast or cap is
  written out. The decoded address of the input asset, the three integers derived from the floating-point price and the
  volatility in basis points are inputs of the quote.

## Model

| member | source | states |
|---|---|---|
| LeafSelection.GreedyExactMatch | crates/spark/src/tree/select_helper.rs:147-166 | the loop with its skip and early return computes the recursive greedy choice over the leaves in descending order |
| LeafSelection.SubsetByFlags | crates/spark/src/tree/select_helper.rs:168-197 | the reference notion of a subset with a given sum is the existence of a selection of leaves with that sum |
| LeafSelection.DisjointSubsetsByFlags | crates/spark/src/tree/select_helper.rs:18-43 | the reference notion of two disjoint subsets with given sums is the existence of two selections that share no leaf |
| PowersOfTwo.BitTrickIsPowerOfTwo | crates/spark/src/tree/select_helper.rs:139-142 | v & (v - 1) == 0 recognises exactly the powers of two |
| LeafSelection.SplitOff | crates/spark/src/tree/select_helper.rs:144-166 | exchange property: in a descending list in which smaller positive values divide larger ones, a subset contains a part worth exactly any h that all leaves divide; the part can be dropped or moved to a second, disjoint subset |
| LeafSelection.GreedyCompleteOnSorted | crates/spark/src/tree/select_helper.rs:147-166 | on such a list the greedy pass succeeds whenever a subset makes the amount, and the leaves it leaves behind still make whatever a second, disjoint subset could |
| LeafSelection.GreedyCompleteOnChains | crates/spark/src/tree/select_helper.rs:147-166 | on every divisibility chain the greedy pass succeeds if and only if some subset makes the amount |
| LeafSelection.GreedyCompleteOnPowers | crates/spark/src/tree/select_helper.rs:147-166 | in particular on powers of two |
| LeafSelection.ExactMatchBounds | crates/spark/src/tree/select_helper.rs:168-197 | the two passes find a match whenever the power-of-two leaves alone can make the amount and never when no subset can; on a divisibility chain, exactly when a subset can |
| LeafSelection.GreedyMissesAnExactSubset | crates/spark/src/tree/select_helper.rs:168-197 | outside the chains a match can be missed: three different leaves of 5, 3 and 3 for 6 |
| LeafSelection.SelectByExactAmount | crates/spark/src/tree/select_helper.rs:56-81 | a selection is a bag of the given leaves worth exactly the target |
| LeafSelection.ExactAmountComplete | crates/spark/src/tree/select_helper.rs:56-81 | on a divisibility chain an exact selection exists if and only if a subset makes the amount |
| LeafSelection.SelectByExactDenominations | crates/spark/src/tree/select_helper.rs:83-98 | the loop that removes each chosen leaf computes the recursive matching |
| LeafSelection.DenominationsExact | crates/spark/src/tree/select_helper.rs:83-98 | denominations are found if and only if the leaves hold that bag of values; the answer lists distinct leaves with those values in order |
| LeafSelection.TargetSelectionSound | crates/spark/src/tree/select_helper.rs:7-54 | a selection uses no leaf twice, amount and fee share none, and its value is exactly the target |
| LeafSelection.AmountLeavesTheFee | crates/spark/src/tree/select_helper.rs:18-43 | on a divisibility chain selecting the amount spoils nothing: the remaining leaves still make every fee that a disjoint subset could |
| LeafSelection.AmountAndFeeComplete | crates/spark/src/tree/select_helper.rs:18-43 | on a divisibility chain an amount and a fee are selected if and only if they are positive and two disjoint subsets make them |
| SelectionCompleteness.SearchNeverMissesIff | crates/spark/src/tree/select_helper.rs:168-197 | for any set of leaf values: the two passes find every amount that some subset of such leaves makes if and only if of two positive values the smaller divides the larger |
| SelectionCompleteness.TargetsNeverMissedIff | crates/spark/src/tree/select_helper.rs:7-81 | the same for whole requests, single matches included: an amount, with or without a fee, that the leaves can make is never refused if and only if the values divide each other |
| SelectionTerms.SortIsStable | crates/spark/src/tree/select_helper.rs:147-150 | the sort keeps the order of leaves with equal values |
| SelectionTerms.GreedyTakesWhatFits | crates/spark/src/tree/select_helper.rs:147-166 | for all lists: the pass takes each leaf that fits into what is missing and succeeds exactly when these make the amount |
| SelectionTerms.SingleWins | crates/spark/src/tree/select_helper.rs:68-71 | the first leaf of exactly the amount is taken before anything else is tried |
| SelectionTerms.AmountAndFeeErrors | crates/spark/src/tree/select_helper.rs:7-81 | which error a refused amount and fee get, the value left for the fee included |
| SelectionTerms.DenominationsTakeTheFirst | crates/spark/src/tree/select_helper.rs:83-98 | each denomination gets the first leaf of its value not chosen before; the only error is that there is none |
| SelectionTerms.MinimumExactly | crates/spark/src/tree/select_helper.rs:100-127 | the errors, else the leaves up to the first that completes the amount |
| LeafSelection.ShortestPrefix | crates/spark/src/tree/select_helper.rs:112-120 | the number of leaves taken is the least whose prefix reaches the amount |
| LeafSelection.SelectByMinimumAmount | crates/spark/src/tree/select_helper.rs:100-127 | the loop takes the shortest prefix that reaches the amount; its final empty answer is unreachable |
| TreeStore.PostgresTreeStore.AddLeaves | crates/spark-postgres/src/tree_store.rs:60-103 | clears the markers of the leaves and upserts them without touching reservations, or changes nothing when the batch repeats an id |
| TreeStore.PostgresTreeStore.GetLeaves | crates/spark-postgres/src/tree_store.rs:105-159 | the five lists are the rows of the five buckets in row order |
| TreeStore.PostgresTreeStore.SetLeaves | crates/spark-postgres/src/tree_store.rs:161-247 | the statement sequence leaves the tables unchanged when blocked or failing and otherwise equal to one set expression |
| TreeTables.RefreshStatements | crates/spark-postgres/src/tree_store.rs:222-242 | delete, timeout cleanup and two upserts in this order yield that set expression |
| TreeSpent.RefreshExactly | crates/spark-postgres/src/tree_store.rs:205-247 | final leaves are all reserved ones, free ones added since the start, and listed ones not recently spent; only leaves of timed-out reservations become free, and they survive |
| TreeStore.PostgresTreeStore.CancelReservation | crates/spark-postgres/src/tree_store.rs:249-276 | removes the reservation and frees exactly its leaves; no effect when unknown |
| TreeStore.PostgresTreeStore.FinalizeReservation | crates/spark-postgres/src/tree_store.rs:278-351 | deletes and marks exactly the held leaves, drops the reservation, upserts new leaves, stamps a completed swap, or rolls back |
| TreeStore.PostgresTreeStore.TryReserveLeaves | crates/spark-postgres/src/tree_store.rs:354-484 | answer and new tables are those of the selection on the filtered rows and the summed pending change |
| TreeRuns.DecisionExactly | crates/spark-postgres/src/tree_store.rs:408-482 | an exact choice wins and leaves no change; otherwise a positive target is met if and only if the rows are worth it, by leaves that fall short without the last, the surplus pending; the rest waits exactly when pending change closes the gap; only an empty choice is not reservable |
| TreeStore.PostgresTreeStore.UpdateReservation | crates/spark-postgres/src/tree_store.rs:500-581 | consumes the held leaves, stores change as free and reserved leaves as held, clears the pending change; fails on an unknown id |
| TreeTables.UpdateStatements | crates/spark-postgres/src/tree_store.rs:545-556 | two upserts and the assignment of the reservation equal one expression |
| TreeStore.PostgresTreeStore.BatchUpsertLeaves | crates/spark-postgres/src/tree_store.rs:702-751 | replaces every column but the reservation, skips the given ids, and fails as a whole on a repeated id |
| TreeStore.PostgresTreeStore.UpsertInto | crates/spark-postgres/src/tree_store.rs:702-751 | accepts a batch if and only if its ids are distinct and then yields the upserted table |
| TreeEffects.AddEffect | crates/spark-postgres/src/tree_store.rs:60-103 | column by column: an added leaf is stored as not missing, with matching status column, keeps the reservation of its row and loses its marker; nothing else changes; a repeated id changes nothing |
| TreeEffects.RefreshApplies | crates/spark-postgres/src/tree_store.rs:161-247 | a refresh changes anything if and only if no swap reservation lives, no swap completed at or after its start, and it lists no leaf twice other than recently spent ones |
| TreeEffects.RefreshWritesMissing | crates/spark-postgres/src/tree_store.rs:235-242 | a leaf listed as missing and not recently spent is stored with that node and the missing flag set, its reservation kept unless it timed out |
| TreeEffects.RefreshWritesReported | crates/spark-postgres/src/tree_store.rs:235-242 | a leaf listed only as reported and not recently spent is stored with that node and the missing flag clear |
| TreeEffects.RefreshKeeps | crates/spark-postgres/src/tree_store.rs:222-242 | a row that is not written stays if and only if it was reserved or added since the start, and keeps every column but a reservation that timed out |
| TreeEffects.RefreshTables | crates/spark-postgres/src/tree_store.rs:847-896 | a committed refresh drops exactly the reservations older than 300 seconds and the markers more than 300 seconds older than its start, and keeps everything else |
| TreeEffects.MissingIsNotFree | crates/spark-postgres/src/tree_store.rs:121-158 | a leaf listed as missing is not free after the refresh, and get_leaves lists it as missing unless it is reserved |
| TreeEffects.ListsAre | crates/spark-postgres/src/tree_store.rs:121-158 | which leaves each list of get_leaves holds, by purpose, missing flag and status, for every table |
| TreeEffects.ListedInOrder | crates/spark-postgres/src/tree_store.rs:121-158 | the lists of get_leaves and the leaves a request chooses from are in row order |
| TreeEffects.CancelEffect | crates/spark-postgres/src/tree_store.rs:249-276 | cancelling frees the held leaves and removes the reservation, every other row and table as before |
| TreeEffects.FinalizeEffect | crates/spark-postgres/src/tree_store.rs:278-351 | finalizing removes the held leaves and stores every new leaf as not missing, free unless another reservation holds it |
| TreeEffects.FinalizeTables | crates/spark-postgres/src/tree_store.rs:303-346 | a marker on every held leaf, the older one kept; the reservation gone; a swap that brings new leaves stamped with its time |
| TreeEffects.UpdateEffect | crates/spark-postgres/src/tree_store.rs:545-564 | the reserved leaves are stored as held by the reservation, the change as it was held before, the consumed leaves gone |
| TreeEffects.UpdateTables | crates/spark-postgres/src/tree_store.rs:527-564 | the reservation keeps purpose and time with pending change 0; a marker on every consumed leaf |
| TreeEffects.ReserveRecords | crates/spark-postgres/src/tree_store.rs:434-447 | a granted request stores its purpose, its time and, as pending change, exactly what was taken beyond the target (0 without a target), in 64 bits |
| TreeEffects.ReserveRaisesPending | crates/spark-postgres/src/tree_store.rs:671-685 | the pending balance rises by exactly that amount |
| TreeEffects.ReserveAnswers | crates/spark-postgres/src/tree_store.rs:402-482 | a positive, not exact-only request is granted if the free leaves are worth it, else told to wait if they are with the pending change, else refused, with exactly these amounts |
| TreeSpent.MarkerIsFirstSpend | crates/spark-postgres/src/tree_store.rs:777-798 | in every reachable state a marker carries the time of the first spend since the leaf last had none, however often it was spent since |
| TreeReservations.TimeoutExactly | crates/spark-postgres/src/tree_store.rs:847-867 | a committed refresh drops exactly the reservations past the timeout; the leaves they held stay and are free, those of the others stay held |
| TreeReservations.TimesOutIff | crates/spark-postgres/src/tree_store.rs:174-236 | in a refresh a reservation times out if and only if the refresh commits and the timeout has passed, never while a swap lives |
| TreeStore.PostgresTreeStore.SumPending | crates/spark-postgres/src/tree_store.rs:671-685 | the pending balance is the sum over all reservations |
| TreeStore.PostgresTreeStore.CreateReservation | crates/spark-postgres/src/tree_store.rs:899-924 | inserts the reservation and assigns exactly the chosen leaves; fails on an existing id |
| TreeRuns.RunKeepsConsistent | crates/spark-postgres/src/tree_store.rs:622-660 | over any run rows are filed under their leaf, the status column agrees with the stored leaf, and every reservation_id names a live reservation |
| TreeRuns.ReserveTakes | crates/spark-postgres/src/tree_store.rs:354-448 | a granted request takes distinct stored rows that pass the filter, worth at least target plus pending change |
| TreeReservations.ReserveHoldsExactly | crates/spark-postgres/src/tree_store.rs:369-448 | a granted request takes only leaves no reservation held, holds exactly those, and leaves every other row and reservation alone |
| TreeReservations.ReserveThenCancel | crates/spark-postgres/src/tree_store.rs:249-276 | reserving and then cancelling restores all tables exactly |
| TreeReservations.ReserveGrantedIff | crates/spark-postgres/src/tree_store.rs:410-450 | a positive, not exact-only request is granted if and only if the available leaves are worth the target |
| TreeReservations.ExactReserveGrantedIff | crates/spark-postgres/src/tree_store.rs:408-431 | an exact-only request on a divisibility chain is granted if and only if it is positive and some leaves make the amount, or two disjoint groups of leaves make the amount and the fee |
| TreeReservations.EndsAtMostOnce | crates/spark-postgres/src/tree_store.rs:249-526 | over any run a reservation id ends at most once, and afterwards cancel and finalize change nothing and update fails |
| TreeReservations.TimeoutDropsOnlyOldPayments | crates/spark-postgres/src/tree_store.rs:174-236 | a refresh drops only payment reservations older than the timeout, holding nothing afterwards |
| TreeReservations.SwapBlocksRefreshes | crates/spark-postgres/src/tree_store.rs:174-199 | until a live swap is finalized or cancelled it never times out and no refresh changes anything |
| TreeTraces.AbandonedSwapIsKept | crates/spark-postgres/src/tree_store.rs:174-199 | a run from the empty store that reserves a leaf for a swap, after which a refresh 400 seconds later changes nothing |
| TreeReservations.SwapShieldsItsRows | crates/spark-postgres/src/tree_store.rs:174-242 | rows held by a live swap stay as they are over any run that neither ends nor updates it nor writes those leaves |
| TreeReservations.CompletedSwapBlocksOlderRefreshes | crates/spark-postgres/src/tree_store.rs:174-199 | after a swap is finalized with its new leaves no refresh that started at or before that moment is ever applied, as long as no later swap sets the completion time back |
| TreeReservations.CompletionStaysIff | crates/spark-postgres/src/tree_store.rs:333-346 | over a whole run the completion time stays at or after t if and only if no committed swap finalize with new leaves carries an earlier time |
| TreeTraces.EarlierStampLetsOldRefreshIn | crates/spark-postgres/src/tree_store.rs:333-346 | a run from the empty store in which two swaps finalize with their times out of order and an older refresh is applied |
| TreeReservations.UpdateHoldsExactly | crates/spark-postgres/src/tree_store.rs:500-581 | a committed update holds exactly the reserved leaves, keeps purpose and age, clears the pending change, stores the change as leaves it does not hold and deletes the old ones |
| TreeSpent.SpendMarks | crates/spark-postgres/src/tree_store.rs:303-334 | finalize and update remove the leaf and leave a marker, the older one if there was one |
| TreeSpent.MarkerSurvives | crates/spark-postgres/src/tree_store.rs:868-896 | a marker survives any run of refreshes started at most five minutes after it |
| TreeSpent.RefreshKeepsMarkerIff | crates/spark-postgres/src/tree_store.rs:868-896 | a committed refresh keeps a marker if and only if it started at most five minutes after it |
| TreeSpent.WhoInserts | crates/spark-postgres/src/tree_store.rs:205-242 | an absent leaf that is not written by name appears if and only if a committed refresh lists it and no marker at or after its start protects it |
| TreeSpent.NoResurrection | crates/spark-postgres/src/tree_store.rs:201-242 | over any run a leaf spent with no older marker is not re-inserted by a refresh that started no later than the spend |
| TreeSpent.NextListingDecides | crates/spark-postgres/src/tree_store.rs:777-798 | after refreshes started no later than the marker that was kept, the next committed one listing the leaf brings it back if and only if it started after that marker |
| TreeSpent.ResurrectionExactly | crates/spark-postgres/src/tree_store.rs:201-242 | over whole runs: a spent leaf never comes back if and only if no committed refresh listing it started after the marker that was kept or follows a committed refresh that started more than five minutes after that marker |
| TreeTraces.OlderMarkerRevivesASpentLeaf | crates/spark-postgres/src/tree_store.rs:777-798 | a run from the empty store in which a leaf spent at 40 is revived by a refresh that started at 35 |
| TreeTraces.LateRefreshForgetsTheMarker | crates/spark-postgres/src/tree_store.rs:868-896 | a run from the empty store in which a refresh more than five minutes later clears the marker and one that started before the spend then revives the leaf |
| TreeSpent.AdditionNotLost | crates/spark-postgres/src/tree_store.rs:222-242 | a leaf stored at or after b outlives all refreshes started no later than b until its reservation is finalized or updated, provided that writes of this very leaf carry times not before b |
| TreeValue.BucketTotal | crates/spark-postgres/src/tree_store.rs:121-158 | a bucket lists each of its leaves once and is worth their value |
| TreeValue.BucketsPartition | crates/spark-postgres/src/tree_store.rs:127-158 | the five buckets and the hidden rows are disjoint, cover the table and share out its value |
| TreeValue.FilterReadsTheAvailableBucket | crates/spark-postgres/src/tree_store.rs:369-387 | in every reachable state the SQL filter reads exactly the leaves reported as available, in the same order |
| TreeValue.ReserveMovesRows | crates/spark-postgres/src/tree_store.rs:410-448 | a granted request moves exactly the chosen leaves from the available bucket to that of its purpose and changes no other bucket |
| TreeValue.ReserveMovesValue | crates/spark/src/tree/mod.rs:42-63 | a swap reservation keeps the balance, a payment reservation lowers it by the value taken |
| TreeValue.RunKeepsCovered | crates/spark-postgres/src/tree_store.rs:402-440 | over any run with fixed leaf values whose updates leave the other reservations enough, pending change never exceeds the value held |
| TreeValue.UpdateKeepsCoveredIff | crates/spark-postgres/src/tree_store.rs:545-564 | an update keeps every pending change covered if and only if the leaves it does not take over from the other reservations are worth their pending change |
| TreeValue.TakingNoOthersIsEnough | crates/spark-postgres/src/tree_store.rs:545-564 | an update that names no leaf of another reservation meets that condition |
| TreeValue.TakingOthersUncovers | crates/spark-postgres/src/tree_store.rs:545-564 | an update that names all leaves of a waiting reservation leaves it empty and uncovered |
| TreeValue.RunCoveredIff | crates/spark-postgres/src/tree_store.rs:402-564 | over a whole run pending change is covered at every moment if and only if every update meets that condition |
| TreeValue.WaitIsBacked | crates/spark-postgres/src/tree_store.rs:452-482 | in a wait answer the need is at most available plus pending, and pending is at most the value of the reserved leaves |
| TokenSelection.SelectOutputs | crates/spark-postgres/src/token_store.rs:492-535 | the selection equals its specification and fails only when all candidates together fall short |
| TokenSelection.TakePrefix | crates/spark-postgres/src/token_store.rs:515-528 | the loop with a saturating remainder takes the shortest sufficient prefix |
| TokenSelection.PrefixLength | crates/spark-postgres/src/token_store.rs:515-528 | the least prefix worth the amount, everything when none is |
| TokenSelection.PrefixIsLeast | crates/spark-postgres/src/token_store.rs:505-512 | among all sub-collections of one size the sorted prefix has the least key sum |
| TokenSelection.LargestFirstUsesFewest | crates/spark-postgres/src/token_store.rs:499-529 | largest first uses no more outputs than any sub-collection that reaches the amount, exact shortcut included |
| TokenSelection.SmallestFirstUsesMost | crates/spark-postgres/src/token_store.rs:499-529 | smallest first without an exact match: any choice of that many outputs suffices, the chosen ones short of the last do not |
| TokenSelection.CountIsExtreme | crates/spark-postgres/src/token_store.rs:505-533 | a count target takes that many or all, of greatest or least total value according to the strategy |
| TokenSelection.FirstExactWins | crates/spark-postgres/src/token_store.rs:499-504 | an output of exactly the amount is taken alone, the first of them |
| TokenSelection.RefusedIff | crates/spark-postgres/src/token_store.rs:492-498 | an amount is refused if and only if the outputs are worth less |
| TokenStore.PostgresTokenStore.SetTokensOutputs | crates/spark-postgres/src/token_store.rs:49-254 | the statements and loops leave the tables unchanged when blocked and otherwise equal to set expressions |
| TokenStore.PostgresTokenStore.GroupByReservation | crates/spark-postgres/src/token_store.rs:118-138 | the grouping lists exactly the outputs of every reservation that holds any |
| TokenStore.PostgresTokenStore.FindLost | crates/spark-postgres/src/token_store.rs:140-158 | finds the reservations without a reported output and the unreported outputs of the others |
| TokenStore.PostgresTokenStore.Reconcile | crates/spark-postgres/src/token_store.rs:102-207 | the grouped deletes keep free later outputs and reported reserved ones, and drop lost and swept reservations |
| TokenStore.SweepFindsEmpty | crates/spark-postgres/src/token_store.rs:185-206 | after the deletes the reservations without outputs are those that never had any |
| TokenStore.PostgresTokenStore.InsertIncoming | crates/spark-postgres/src/token_store.rs:231-244 | later metadata wins, earlier outputs win, skipped ids stay out |
| TokenStore.PostgresTokenStore.InsertTokenOutputs | crates/spark-postgres/src/token_store.rs:381-418 | upserts metadata, clears the markers, inserts the outputs not yet present |
| TokenStore.PostgresTokenStore.ReserveTokenOutputs | crates/spark-postgres/src/token_store.rs:421-574 | answer and new tables are those of the selection on the free, preferred outputs of the token |
| TokenRuns.CancelExactly | crates/spark-postgres/src/token_store.rs:576-603 | cancelling frees exactly the outputs held, changes no other row or holding, and does nothing the second time or for an unknown id |
| TokenStore.PostgresTokenStore.FinalizeReservation | crates/spark-postgres/src/token_store.rs:605-689 | deletes and marks exactly the held outputs, stamps a swap, drops orphaned metadata |
| TokenEffects.RefreshTurnedAway | crates/spark-postgres/src/token_store.rs:63-87 | a refresh changes nothing while a swap reservation lives or when a swap completed at or after its start; every other one is carried out |
| TokenEffects.RefreshOutcome | crates/spark-postgres/src/token_store.rs:86-247 | of a refresh that is not turned away: the rows that stay, unchanged, and the reported ones not spent since the start |
| TokenEffects.RefreshWrites | crates/spark-postgres/src/token_store.rs:231-244 | a reported output that was not there or did not stay is stored free, under the token of its first report |
| TokenEffects.RefreshTables | crates/spark-postgres/src/token_store.rs:86-244 | markers more than 300 seconds older than the start go, the last reported metadata of a token is stored |
| TokenEffects.RefreshMetadata | crates/spark-postgres/src/token_store.rs:209-229 | metadata of a token that is not reported stays if and only if one of its outputs stays |
| TokenEffects.InsertEffect | crates/spark-postgres/src/token_store.rs:381-418 | inserting clears the markers and adds the outputs not stored yet; stored rows keep everything, their reservation included |
| TokenEffects.CandidatesExactly | crates/spark-postgres/src/token_store.rs:467-490 | a request chooses from exactly the unreserved outputs of its token, only preferred ones if it names any, each once and in row order |
| TokenEffects.ReserveAnswers | crates/spark-postgres/src/token_store.rs:421-574 | which error a request gets, in the order of the checks, or the metadata of the token with the chosen outputs |
| TokenEffects.ReserveEffect | crates/spark-postgres/src/token_store.rs:536-562 | a granted request records purpose and time and assigns exactly the chosen rows; a failed one changes nothing |
| TokenEffects.FinalizeEffect | crates/spark-postgres/src/token_store.rs:605-689 | row by row: held outputs deleted and marked, a swap stamped with the transaction time, metadata kept exactly where outputs are left |
| TokenEffects.SwapStarts | crates/spark-postgres/src/token_store.rs:536-562 | a granted request with purpose swap makes a swap live |
| TokenEffects.SwapBlocksRefreshes | crates/spark-postgres/src/token_store.rs:63-87 | over any run a live swap lives, and every refresh changes nothing, until it is cancelled or finalized |
| TokenEffects.OnlyStampsComplete | crates/spark-postgres/src/token_store.rs:655-668 | the completion time changes only when a live swap is finalized, to the time of that transaction |
| TokenEffects.CompletedSwapBlocksOlderRefreshes | crates/spark-postgres/src/token_store.rs:63-87 | after a swap is finalized no refresh started at or before that time is applied over any run whose stamps do not go back before it |
| TokenRuns.ReachableIsConsistent | crates/spark-postgres/src/token_store.rs:732-782 | in every reachable state each output's token has metadata and each reservation_id names a live reservation |
| TokenRuns.MetadataAfterCleanup | crates/spark-postgres/src/token_store.rs:220-244 | after an effective finalize exactly the tokens with outputs have metadata; after a refresh, those and the reported ones |
| TokenRuns.RefreshExactly | crates/spark-postgres/src/token_store.rs:86-247 | final outputs are reserved and reported, free and added since the start, or reported and not recently spent; everything still reserved was reported and is unchanged; a reservation stays if and only if one of its outputs was reported, or it held none and no other lost a part |
| TokenRuns.LaterAdditionSurvivesIff | crates/spark-postgres/src/token_store.rs:102-183 | an output added since the refresh started survives it if and only if it is free or reported |
| TokenRuns.RefreshDropsALaterAddition | crates/spark-postgres/src/token_store.rs:102-183 | an output received at 10 and reserved at 11 is deleted with its reservation by a refresh that started at 5 |
| TokenRuns.ReserveHoldsExactly | crates/spark-postgres/src/token_store.rs:467-562 | a granted request holds exactly free outputs of its token, touches no other row, and cancelling restores the tables |
| TokenRuns.CandidatesComplete | crates/spark-postgres/src/token_store.rs:467-490 | the rows a request chooses from are exactly the free, preferred outputs of its token, each once |
| TokenRuns.ReserveGrantedIff | crates/spark-postgres/src/token_store.rs:467-535 | a request for an amount is granted if and only if those outputs are worth it; a count is always granted |
| TokenRuns.MarkerSurvives | crates/spark-postgres/src/token_store.rs:865-883 | a marker survives any run of refreshes started at most five minutes after it, unless its output is inserted by name |
| TokenRuns.WhoInserts | crates/spark-postgres/src/token_store.rs:231-244 | an absent output that is not inserted by name appears if and only if a committed refresh reports it and no marker at or after its start protects it |
| TokenRuns.NoResurrection | crates/spark-postgres/src/token_store.rs:81-100 | over any run an output spent with no older marker is not re-inserted by a refresh that started no later than the spend |
| TokenRuns.NextReportDecides | crates/spark-postgres/src/token_store.rs:640-650 | after refreshes started no later than the marker that was kept, the next committed one reporting the output brings it back if and only if it started after that marker |
| TokenRuns.ResurrectionExactly | crates/spark-postgres/src/token_store.rs:81-100 | over whole runs: a spent output never comes back if and only if no committed refresh reporting it started after the marker that was kept or follows a committed refresh that started more than five minutes after that marker |
| TokenRuns.OlderMarkerRevivesASpentOutput | crates/spark-postgres/src/token_store.rs:640-650 | a run from the empty store in which an output spent at 40 is revived by a refresh that started at 35 |
| Quote.RoundUpIsTheMask | crates/flashnet/src/models.rs:458-464 | the bit mask of the source, applied to the saturated sum, is the rounding of the model |
| Quote.RoundUpExact | crates/flashnet/src/models.rs:458-464 | that rounding gives the next multiple of 64 |
| Quote.GrossOutCovers | crates/flashnet/src/models.rs:458-491 | the gross output covers the request, and an Ok quote implies that the rounding did not saturate |
| Quote.DivCeilExact | crates/flashnet/src/models.rs:492-498 | the saturating ceiling never exceeds a sufficient multiplier and suffices if and only if the numerator fits below the last multiple |
| Quote.ReserveQuoteExact | crates/flashnet/src/models.rs:500-526 | the quote is at most every payment that keeps the constant product, and keeps it if and only if the numerator fits below the last multiple; one unit more always keeps it |
| Quote.QuoteSufficientAndLeast | crates/flashnet/src/models.rs:439-597 | without saturation the payment keeps the product, and before input fees it is the least that does |
| Quote.PaymentKeepsProductIff | crates/flashnet/src/models.rs:500-597 | the full payment keeps the product if and only if the numerator fits or the input fee adds at least one unit |
| Quote.SaturationUndercharges | crates/flashnet/src/models.rs:492-498 | an accepted quote one unit short of keeping the product |
| Quote.QuoteMonotone | crates/flashnet/src/models.rs:439-597 | Ok stays Ok and does not rise when amount, slippage, integrator fee and pool fees stay or fall, saturation and price branches included |
| Quote.SlippageAndFees | crates/flashnet/src/models.rs:466-594 | slippage, then from A to B the host and integrator fees, raise the output; the other fees raise the input; a fee sum is capped at 32 bits; slippage is at most 10000 |
| Quote.PriceQuoteLeast | crates/flashnet/src/models.rs:527-572 | a quote by price is the least input worth the output at the scaled price, unless the ceiling saturates |
| QuoteTerms.QuoteInPlainTerms | crates/flashnet/src/models.rs:439-597 | an Ok quote step by step in plain inequalities: the rounded request, the output raised by slippage and output fees, the payment by the reserves of the input and output asset or by the price, raised by the input fees |
| QuoteTerms.QuoteErrors | crates/flashnet/src/models.rs:439-597 | which error an unquoted request gets: slippage, products over 128 bits, missing data, more than the reserve |
| QuoteTerms.GrossOutFails | crates/flashnet/src/models.rs:466-491 | the way to the output fails only by a product over 128 bits |
| PoolSelection.ContendersAre | crates/flashnet/src/pool_selection.rs:35-71 | contenders are the pools with an Ok quote, only V3 ones if there is one; there are none exactly when no pool is viable |
| PoolSelection.ScoreBounds | crates/flashnet/src/pool_selection.rs:174-235 | every component and the total lie in 0..10000, fee and liquidity equal the shares before the cast, and the total is the weighted mean |
| PoolSelection.ScaleFits | crates/flashnet/src/pool_selection.rs:82-94 | the computed minimum, maximum and largest liquidity bound every contender, which excludes division by zero, and are attained by contenders |
| PoolSelection.BetterScoresNoLess | crates/flashnet/src/pool_selection.rs:174-235 | asking no more and being no shallower and no more volatile never scores less in total, if the shallower pool has liquidity, both have none, or the deeper has a tenth of the largest |
| PoolSelection.DeeperIsNoWorseIff | crates/flashnet/src/pool_selection.rs:174-235 | for all pairs with given liquidities that rule about totals holds if and only if that condition does |
| PoolSelection.ShallowLosesToMissing | crates/flashnet/src/pool_selection.rs:192-223 | liquidity 10 of 1000 totals 7030 and none at all totals 7300, price and stability equal |
| PoolSelection.MissingLiquidityBeatsShallow | crates/flashnet/src/pool_selection.rs:192-208 | missing liquidity gets the higher liquidity component if and only if the known one is below a tenth of the largest, saturation included |
| PoolSelection.FeeAnchors | crates/flashnet/src/pool_selection.rs:181-190 | the dearest candidate scores 0, the cheapest 10000 if and only if the product by 10000 fits in 128 bits |
| PoolSelection.LiquidityAnchors | crates/flashnet/src/pool_selection.rs:192-208 | 5000 without any data, 1000 for missing data, 10000 for the deepest if and only if the product by 10000 fits in 128 bits |
| PoolSelection.StabilityAnchors | crates/flashnet/src/pool_selection.rs:210-217 | 10000 without volatility, 5000 for missing data as for 100%, 0 if and only if volatility is above 999900% |
| PoolSelection.LastMaxIsLastMaximum | crates/flashnet/src/pool_selection.rs:96-113 | the chosen element is beaten by none and beats everything after it |
| PoolRanking.SelectBestPoolSpec | crates/flashnet/src/pool_selection.rs:27-127 | an answer exists exactly when a pool has a quote; over positions in the given list, under the scale whose ends contenders attain, it is the contender with the highest total, of those the highest volume, of those the last |
| PoolRanking.SpansOnce | crates/flashnet/src/pool_selection.rs:82-94 | no other scale has these ends |
| PoolRanking.ScoreExactly | crates/flashnet/src/pool_selection.rs:174-235 | every component and the total pinned by inequalities: rounded-down shares of the scale with the product capped at 128 bits, defaults for missing data, weights 5, 3 and 2 |
| PoolSelection.SelectSucceedsBelow | crates/flashnet/src/pool_selection.rs:27-59 | success carries over to every smaller amount, slippage and integrator fee |
| Migrations.Database.Run | crates/spark-postgres/src/migrations.rs:21-83 | all new migrations are applied and recorded in order, or nothing changes |
| Migrations.RunOnApplied | crates/spark-postgres/src/migrations.rs:54-79 | on a database with the first k migrations, the first n lead to exactly the first max(k, n) |
| Migrations.ExtendingEqualsRunningOnce | crates/spark-postgres/src/migrations.rs:54-79 | running a list and then an extension equals running the extension once |
| Migrations.HistoryAppliesAPrefixOnce | crates/spark-postgres/src/migrations.rs:54-79 | after any history of prefixes, each run with failures of its own, exactly a prefix is applied once in order, with versions 1 to k, k being the longest list of a run that succeeded; runs without a failure of their own succeed |
| Migrations.EachStatementOnce | crates/spark-postgres/src/migrations.rs:60-79 | the executed statements are the flat list of those migrations |
| MigrationTerms.RunExactly | crates/spark-postgres/src/migrations.rs:54-83 | a run on any database ends in a given state if and only if the statements of the migrations beyond the highest version form a chain of successes from the old schema to the new; then exactly their versions are added, in order |
| WalletRetry.WithLeafsSpentRetry | crates/spark-wallet/src/wallet.rs:97-163 | the loop equals its iteration-by-iteration specification and makes exactly the requests of the iterations that get that far |
| WalletRetry.DelaysNeverCapped | crates/spark-wallet/src/wallet.rs:140-143 | the 3000 ms cap never applies and the waits add up to at most 3100 ms |
| WalletRetry.RetryBounds | crates/spark-wallet/src/wallet.rs:97-163 | for every sequence of outcomes at most 8 operations, 7 loop-top refreshes and 3100 ms of backoff |
| WalletRetry.RetryBoundsTight | crates/spark-wallet/src/wallet.rs:97-163 | the three bounds are reached together |
| WalletRetry.RetrySucceedsIff | crates/spark-wallet/src/wallet.rs:97-163 | success if and only if an operation succeeds before three spent-leaf failures and six rate limits with everything on the way working; nothing runs after it |
| WalletRetry.SelectSucceedsIff | crates/spark-wallet/src/wallet.rs:1646-1742 | a request succeeds if and only if one of three tries reserves after tries that each were followed by a working refresh that left enough balance |
| WalletRetry.SelectBounds | crates/spark-wallet/src/wallet.rs:1646-1742 | a request makes at most 6 select_leaves calls, 3 refreshes (2 when it succeeds) and 2 sleeps |
| WalletRetry.SelectLeavesWithRetry | crates/spark-wallet/src/wallet.rs:1646-1742 | the loop equals its specification: when it succeeds, which try is the last, and the exact number of calls, refreshes and sleeps |
| WalletRetry.WholeOperationBounds | crates/spark-wallet/src/wallet.rs:97-163 | both loops together: for every sequence of outcomes at most 48 select_leaves calls, 24 refreshes and 16 one-second sleeps |
| WalletRetry.WholeOperationBoundsTight | crates/spark-wallet/src/wallet.rs:97-163 | these three bounds are reached together |
| RetryTerms.RetryExactly | crates/spark-wallet/src/wallet.rs:97-163 | the whole report: every iteration before the last operates and fails in a retried way, what each of the six endings means in the last, how many refreshes were made and how long was waited |
| RetryTerms.RequestExactly | crates/spark-wallet/src/wallet.rs:1646-1742 | the whole report of one request: which try is the last, whether it reserves, the calls, refreshes and sleeps |
| RetryTerms.WaitsAre | crates/spark-wallet/src/wallet.rs:140-143 | the waits are 100, 200, 400, 800 and 1600 ms, in this order |
| Histogram.FromDurationsWithBuckets | crates/breez-sdk/breez-bench/src/stats.rs:179-231 | the building, counting and trimming loops equal the tally of contiguous buckets |
| Histogram.ExplicitBoundsCount | crates/breez-sdk/breez-bench/src/stats.rs:199-219 | the counts add up to the samples, less those below the start, plus once more those between the end and the last edge |
| Histogram.ExplicitBoundsCountOnceIff | crates/breez-sdk/breez-bench/src/stats.rs:179-219 | explicit bounds count every list of samples at or above the start exactly once if and only if there is a bucket and the bounds are a whole number of buckets apart |
| Histogram.UnalignedEndCountsTwice | crates/breez-sdk/breez-bench/src/stats.rs:199-219 | one sample of 5 in buckets of 2 from 0 to 5 is counted twice |
| Histogram.FromDurations | crates/breez-sdk/breez-bench/src/stats.rs:153-176 | an automatic histogram has contiguous buckets, each with the number of samples inside it, the outer ones not empty, no sample outside, the counts adding up to the samples, and at most 21 buckets; it is the one with the automatic bounds |
| Histogram.AutomaticDescribes | crates/breez-sdk/breez-bench/src/stats.rs:153-231 | the aligned layout, counted and trimmed, is such a histogram |
| Histogram.NiceWidthIsNice | crates/breez-sdk/breez-bench/src/stats.rs:281-306 | the width is 1, 2 or 5 times a power of ten, between 4/7 and 10/7 of the raw width |
| HistogramTerms.NiceWidthIsNearest | crates/breez-sdk/breez-bench/src/stats.rs:281-306 | of all numbers 1, 2 or 5 times a power of ten the width is the nearest to the raw width, the smaller of two equally near |
| HistogramTerms.AutoLayoutIs | crates/breez-sdk/breez-bench/src/stats.rs:153-176 | the width is that for a tenth of the range, at least 1; start and end are the multiples of it around the samples |
| HistogramTerms.WithBucketsExactly | crates/breez-sdk/breez-bench/src/stats.rs:179-231 | for all bounds: which buckets there are, each with its bounds and its count, only empty ones trimmed, and the total |

## Left out

- SQL text, connection pools, the advisory lock, JSON, UUID generation, notifications and logging: replaced by table fields, atomic steps and parameters.
- insert_token_outputs takes no lock in the source; it is modelled as one atomic step like the locked operations.
- Overflow of plain sums (`sum::<u64>`, `sum::<u128>`, `available + pending`): sums are natural numbers.
- The lower bound of representable timestamps in the marker cleanup: the cutoff is always the start minus five minutes.
- created_at of leaf rows and the other columns of outputs and metadata: nothing reads them in these transactions; they are one opaque text.
- The JSON decoding errors of leaf rows and metadata rows: rows decode to what was stored.
- list_tokens_outputs and get_token_outputs: read-only listings of the same rows.
- The in-memory stores, the tree service and the leaf optimizer; with_reserved_leaves only chooses between finalize and cancel.
- Floating-point prices and volatility: the integers the code derives from them are inputs, the volatility plus 10000 assumed to fit in 64 bits as the code's unchecked addition requires.
- Decoding of bech32m token identifiers: the quote starts from the decoded address.
- Lists of more than 2^31 - 1 migrations, where the version number would repeat.
- The text of errors: which error is kept, its message is not.
- Histogram rendering, percentiles, standard deviation and samples near 2^64 ms.
- Flashnet HTTP, signing, caches, bindings, macros, scripts and test fixtures: plumbing.
