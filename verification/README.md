# Verified model of the PaySpyre backend's stateful cores

A Dafny 4.11 model of the parts of the backend where money, messages and admissions are
counted, with proofs of what those parts promise. `dafny verify dfyconfig.toml` checks it.

## What is modelled

**Loan ledger** (`Accrual`, `Waterfall`, `WaterfallTheorems`, `LedgerRows`, `LedgerWalk`,
`Cutover`, `LiveEngine`, `Reversals`, `LoanLedger`, `AfterCutover`). The ledger migration replays old
payments over the amortization schedule, walks the resulting rows with ACT/365 interest
and appends one adjustment row per loan. The waterfall loop is proved against a closed
form and that against the destination of every single cent. The walk is proved to tile
time and conserve money, and to be the one the live engine makes of any list of events;
fee and reversal rows are characterized by what they do to all four reported balances.
The adjustment is proved to land and to be idempotent, with the exact condition under
which the loan then goes on as one freshly disbursed.

**Notification outbox** (`OutboxRows`, `OutboxProtocol`, `OutboxSafety`, `OutboxWorker`).
Workers, row locks, a savepoint inside a transaction per row, irrevocable vendor sends and
a crash at any point form a step system; safety is an invariant over all interleavings.
The worker's own code is modelled on objects updated in place, and every pass, however it
ends, is proved to be a run of that system.

**History coverage** (`Calendar`, `HistoryCoverage`, `CoverageTheorems`, `VersionedEdits`).
Leap-day clamping, the required window, the sort-and-sweep with a gap tolerance (proved
equivalent to a statement about days), and the version-don't-overwrite snapshots.

**Rate limiters** (`SlidingWindow`, `FixedWindow`). The pruned log against the full one,
and the shared counter against per-epoch and per-interval bounds.

**Filters and numbering** (`NulFilter`, `IncomeLabels`, `SinLuhn`, `Numbering`,
`RiskScores`). The NUL scan against a JSON string decoder, label blocking as word-prefix
matching, Luhn error detection, the application-number backfill and sequence, and the
append-only score table with its trigger.

Code that loops or assigns is a method or a class here, proved against a function; the
lemmas are about those functions. Expressions and recursion in the source are functions.

## Where code and documentation disagree

The model follows the code; each item has a lemma.

- The cutover row is documented to make the ledger equal the stored balance. It does so
  exactly when that balance is not negative (`LandsExactlyIffStoredBalanceNonNegative`).
- Accrual is documented to restart at the cutover. For all rows recorded afterwards and
  dated on that day or later, and all later dates, it does exactly when the rate is not
  positive, or the loan is disbursed by the cutover and gets an adjustment row, or has its
  disbursement or a replayed row on that very day, or owes nothing (`RestartsIff`). A loan
  found consistent otherwise keeps accruing from its last row, and a loan not yet disbursed
  from its disbursement or never, adjustment row or none.
- Money is documented never to be dropped (app/services/interest_engine.py:34-36). The walk
  keeps all of it exactly when no row pays more principal, excess interest included, than
  is outstanding (`NothingForgottenIff`, `MoneyIsConservedIff`); principal beyond that is
  forgotten even while interest is owed (`SurplusPrincipalDoesNotPayInterest`).
- A reversal is documented to compensate its row exactly (app/services/loan_ledger.py:156).
  On the row's own date it does, for all rows that may follow, exactly when the row paid no
  more than each of the four balances it met (`PaymentReversalUndoesIff`).
- Committing per row is documented as the duplicate-send guard that leaves only the window
  of a crash (scripts/process_notification_outbox.py:142-149). An unclassified error or a
  failed commit after the vendor took the message leaves the row pending too, so for every
  retry setting a row can be delivered any number of times without a crash
  (`ErrorsDuplicateWithoutLimit`). Where every delivered transaction is committed, a
  duplicate is possible exactly when at least two retries are configured, because a sender
  can report a failure after the vendor took the message (`DuplicateWithoutLossIff`).
- History gaps up to the tolerance are documented as allowed. Between two entries only
  strictly smaller gaps are (`GapMustBeBelowTheTolerance`).
- The window is documented as what must be covered. Well-formed entries that cover it are
  accepted exactly when, besides, every entry that ended before the window is followed
  within the tolerance by one that ends later (`AcceptedIffCoveredAndNothingStale`).
- The score trigger is documented to allow an update whose only difference is the flag.
  Columns it does not compare may change in that update (`OnlyTheFlagDiffersIff`).

## Assumptions

Dates are day numbers and times are integers (reals in `FixedWindow`), read as inputs; the
limiters' clocks do not go back. Database queries are sequences and maps that satisfy the
table constraints. Row locks, transactions and savepoints behave as PostgreSQL documents
them. Vendor answers are inputs.

## Model

| member | source | states |
|---|---|---|
| Accrual.AccrualIsCorrectlyRounded | alembic/versions/049_loan_ledger.py:263-275 | the accrued cents are the one integer nearest to outstanding * bps * days / 3,650,000, ties to even; non-positive inputs give zero |
| Accrual.AccrualIsMonotone | alembic/versions/049_loan_ledger.py:263-275 | more principal, a higher rate or more days never accrue less |
| Accrual.SplittingDriftBound | alembic/versions/049_loan_ledger.py:263-275 | accruing a span in n pieces drifts from accruing it whole by at most (n + 1) / 2 cents |
| Waterfall.AllocatePayment | alembic/versions/049_loan_ledger.py:225-242 | one payment moves the fill state from the closed form at the old cash total to that at the new one, and its row gets exactly the cents in between |
| Waterfall.InstallmentStep | alembic/versions/049_loan_ledger.py:231-240 | what the loop takes for one installment is the difference of the closed forms before and after |
| WaterfallTheorems.EachCentHasItsDestination | alembic/versions/049_loan_ledger.py:165-168 | the closed form counts cents: each cent goes to the oldest unfilled installment, principal before interest, overflow to principal |
| WaterfallTheorems.RowSplitsItsAmount | alembic/versions/049_loan_ledger.py:237-242 | a row's principal and interest are non-negative and add up to its amount |
| WaterfallTheorems.FillsConserveCash | alembic/versions/049_loan_ledger.py:221-240 | the fills add up to the cash received, up to the scheduled total |
| WaterfallTheorems.RowsTelescope | alembic/versions/049_loan_ledger.py:221-242 | the rows of a replay add up to the closed form at the total cash |
| WaterfallTheorems.PathIndependence | alembic/versions/049_loan_ledger.py:220-242 | histories with the same total cash leave the same fills and the same principal and interest totals |
| WaterfallTheorems.MergingPayments | alembic/versions/049_loan_ledger.py:223-242 | merging two consecutive payments adds their two rows and changes no other |
| LedgerRows.OrderRowsSorts | alembic/versions/049_loan_ledger.py:345-348 | the replay order is sorted by effective date and sequence and loses no row |
| LedgerRows.ReplayOrderIsUnique | alembic/versions/049_loan_ledger.py:345-348 | there is only one such order of a set of rows |
| LedgerWalk.Walk | alembic/versions/049_loan_ledger.py:357-371 | the loop computes the balance of the walk specification for any rows |
| LedgerWalk.BalancesStayNonNegative | alembic/versions/049_loan_ledger.py:358-371 | outstanding and interest due never go below zero |
| LedgerWalk.SpansPartitionTheLoan | alembic/versions/049_loan_ledger.py:360-371 | for any rows in any order the accrual spans tile the time from disbursement to cutover |
| LedgerWalk.NoDisbursementNoAccrual | alembic/versions/049_loan_ledger.py:357-371 | a loan never disbursed has no accrual span, and owes interest only if a row allocated a negative amount |
| LedgerWalk.WalkConservesMoney | alembic/versions/049_loan_ledger.py:354-371 | principal plus interest at cutover is the advance plus accrued interest minus allocations plus what the clamp forgot |
| LedgerWalk.NothingForgottenIff | alembic/versions/049_loan_ledger.py:367-369 | the clamp forgets nothing exactly when each row's principal plus excess interest fits what is outstanding when it is met |
| LedgerWalk.MoneyIsConservedIff | app/services/interest_engine.py:34-36 | what is owed is the advance plus accrued interest minus all allocations, without a loss, exactly for those ledgers |
| LedgerWalk.SurplusPrincipalDoesNotPayInterest | alembic/versions/049_loan_ledger.py:367-369 | a concrete ledger on which it fails: surplus principal is forgotten while interest stays due |
| Cutover.ReconciliationLands | alembic/versions/049_loan_ledger.py:373-400 | after the pass the replay shows the stored balance clamped at zero and no interest, for any rows |
| Cutover.LandsExactlyIffStoredBalanceNonNegative | alembic/versions/049_loan_ledger.py:303-303 | the ledger equals the stored balance exactly when that is not negative |
| Cutover.SecondPassIsIdle | alembic/versions/049_loan_ledger.py:373-375 | a second pass on the same date appends nothing exactly when the stored balance is not negative |
| Cutover.ReconciledIsValid | alembic/versions/049_loan_ledger.py:377-400 | at most one row is appended: an adjustment at the cutover with a fresh sequence number and the positive amount of its two moves; no row is touched |
| Cutover.AdjustmentIsNumberedNext | alembic/versions/049_loan_ledger.py:377-386 | the row is numbered 1 on an empty ledger and one past the highest number otherwise |
| Cutover.AnyOrderingGivesTheBalance | alembic/versions/049_loan_ledger.py:345-348 | every answer the ordered query may give leads to the same balance |
| LiveEngine.ComputeBalances | app/services/interest_engine.py:136-199 | the engine's loop computes the bucket specification |
| LiveEngine.MigrationAgreesWithEngine | alembic/versions/049_loan_ledger.py:354-356 | without fee and reversal rows the migration's balance is the one the application reports |
| LiveEngine.EngineReportsStoredBalance | app/services/loan_ledger.py:186-204 | after reconciliation the application reports the stored balance and empty interest, fee and add-on buckets |
| LiveEngine.EngineIsTheWalkOfNetRows | app/services/interest_engine.py:136-199 | for every list of events, fees and reversals included, the engine's principal and interest are the migration's walk over the net rows |
| LoanLedger.LoanLedger.BackfillFromPayments | alembic/versions/049_loan_ledger.py:220-260 | the rows are the payments in order with their shares of the cash stream; a negative amount rolls everything back |
| LoanLedger.BackfilledRowsMirrorPayments | alembic/versions/049_loan_ledger.py:221-260 | each row carries its payment's amount in two non-negative parts, the day it was received on, its running number and no fees |
| LoanLedger.BackfilledPrincipal | alembic/versions/049_loan_ledger.py:231-242 | the first k rows repay the principal that the first cents of the cash stream are destined for |
| LoanLedger.LoanLedger.ReconcileAtCutover | alembic/versions/049_loan_ledger.py:341-400 | the ledger becomes its reconciled form by appending only |
| LoanLedger.LoanLedger.Upgrade | alembic/versions/049_loan_ledger.py:158-159 | after both steps the live engine reports the stored balance (clamped at zero), and a repeated reconciliation is idle exactly when that balance is not negative |
| LoanLedger.BackfilledIsInOrder | alembic/versions/049_loan_ledger.py:208-224 | payments ordered by receipt give rows already in replay order |
| LoanLedger.BackfillIsPathIndependent | alembic/versions/049_loan_ledger.py:220-260 | histories with the same cash give ledgers with the same principal and interest totals |
| AfterCutover.RestartsIff | alembic/versions/049_loan_ledger.py:280-306 | accrual restarts at the cutover, for all rows recorded after the pass and dated on that day or later and all later dates, exactly under the condition on rate, disbursement, history and stored balance |
| AfterCutover.ForwardIsPureActuals | alembic/versions/049_loan_ledger.py:303-306 | under that condition any later debt is that of a loan disbursed at the cutover for the stored balance; future-dated rows count alike whether recorded before or after the pass |
| AfterCutover.ReconciledContinues | alembic/versions/049_loan_ledger.py:303-306 | every reconciled loan, whatever its disbursement, continues from the stored balance clamped at zero with nothing due |
| AfterCutover.CursorShows | alembic/versions/049_loan_ledger.py:263-275 | on a positive balance and rate two different accrual starts, or none, show on some later day |
| LiveEngine.EngineStopsAtFeeRows | app/services/loan_ledger.py:186-204 | on every ledger without reversals the application's principal and interest are the migration's walk with each fee row counted as an empty row |
| Reversals.OnlyReplayOrderMatters | app/services/loan_ledger.py:93-99 | the balances do not depend on the order in which rows were recorded |
| Reversals.IdleRowsMoveNothing | app/services/loan_ledger.py:143-154 | dangling and chained reversals, and disbursements, can be struck from a ledger without changing any balance |
| Reversals.PaymentReversalUndoesIff | app/services/loan_ledger.py:147-163 | a payment reversed on its own date leaves all four balances as an empty row would, whatever follows, exactly when no clamp acted on it |
| Reversals.FeeReversalUndoesIff | app/services/loan_ledger.py:147-163 | a fee followed by its reversal leaves all balances as an empty row would, always for non-negative fees and otherwise exactly when no clamp acted on it |
| Reversals.ReversalIsTheOppositeRow | app/services/loan_ledger.py:147-163 | anywhere in a ledger a reversal does to all four balances what an adjustment with the opposite allocations would do on its date |
| Reversals.FeesAreConserved | app/services/interest_engine.py:184-191 | fees and add-ons owed are each what was charged less what was paid, plus what the clamp forgot |
| AfterCutover.EngineForwardIsPureActuals | app/services/loan_ledger.py:186-204 | the same under that condition for the principal and interest the application reports, later fee rows included |
| AfterCutover.BackdatedRowsMoveTheBalance | app/services/loan_ledger.py:57-86 | rows backdated before the cutover after the pass leave the cutover balance off the stored one by exactly the change they make to the replayed principal and interest, clamped at zero |
| AfterCutover.ConsistentLoanDoesNotRestart | alembic/versions/049_loan_ledger.py:374-375 | a concrete consistent loan outside the condition: no row, and another cent the day after |
| OutboxRows.RescheduledRowWaits | app/services/notification_retry.py:46-79 | a rescheduled row is never due before now, and later than now exactly when a positive delay is configured |
| OutboxRows.RejectionDecides | scripts/process_notification_outbox.py:120-136 | a permanent error or the last allowed attempt fails the row; any other rejection leaves it pending, one attempt older, due after the configured delay |
| OutboxSafety.StepKeepsInv | scripts/process_notification_outbox.py:152-175 | every step of every worker keeps the account of every row |
| OutboxSafety.OutboxIsSafe | scripts/process_notification_outbox.py:106-136 | failed rows have one exhaustion event, sent rows one issued link and one sent notice; every delivery by a worker is one lost in a crash, one undone by an error, one committed as a failed try, the one of the sent row or one still open |
| OutboxSafety.DeliveriesPerRun | scripts/process_notification_outbox.py:139-149 | in any run the workers deliver a row at most once plus the crashes, the errors and the reported failures that came after a delivery; at most max(1, max retries) times plus those crashes and errors; and try it a bounded number of times |
| OutboxSafety.CountersCountSteps | scripts/process_notification_outbox.py:152-175 | the history counters equal the numbers of accept, crash, roll-back, misread and commit steps of the run |
| OutboxSafety.LocksAreExclusive | app/repositories/notification_outbox.py:57-76 | no two workers hold the same row |
| OutboxSafety.TerminalRowsAreFinal | app/repositories/notification_outbox.py:78-113 | a sent or failed row never changes, and is never tried or delivered again |
| OutboxSafety.TriesAreBounded | scripts/process_notification_outbox.py:130-136 | after max(1, max retries) committed tries a row is sent or failed |
| OutboxSafety.CommitUsesUpATry | scripts/process_notification_outbox.py:126-136 | every committed try strictly lowers the tries left |
| OutboxSafety.CommittedRejection | scripts/process_notification_outbox.py:120-136 | a committed rejection changes its row by that rule, adds one exhaustion event exactly when it fails, and touches no other row |
| OutboxSafety.CommittedSendOrExpiry | scripts/process_notification_outbox.py:97-119 | a committed send changes only the status and adds the two events; a committed expiry needs a passed TTL, fails the row and adds the exhaustion event |
| OutboxWorker.OutboxRow.SetSent | app/repositories/notification_outbox.py:78-81 | only the status changes, to sent |
| OutboxWorker.OutboxRow.SetFailed | app/repositories/notification_outbox.py:100-113 | the attempt is counted, the row is failed with its error |
| OutboxWorker.OutboxRow.Postpone | app/repositories/notification_outbox.py:83-98 | the attempt is counted and the next one set by the backoff of the following attempt |
| OutboxWorker.RetryOne | scripts/process_notification_outbox.py:82-136 | the row and the events left in the transaction are those of the outcome; failed sends, delivered ones included, leave no issued event |
| OutboxWorker.TryFollowsTheRule | scripts/process_notification_outbox.py:97-136 | the row and events of a try are those the rule names for expiry, delivery, failure and postponement |
| OutboxWorker.Attempt | scripts/process_notification_outbox.py:152-169 | the transaction of one row commits what the rule asks, or nothing when an unclassified error goes through |
| OutboxWorker.Outbox.ClaimDue | app/repositories/notification_outbox.py:57-76 | the claim is an earliest due pending row, or none is due |
| OutboxWorker.Outbox.ProcessNext | scripts/process_notification_outbox.py:153-175 | one iteration commits the row's outcome or rolls all of it back |
| OutboxWorker.Outbox.ProcessOnce | scripts/process_notification_outbox.py:139-176 | the pass handles earliest due rows one by one, terminates, and stops at the limit, when nothing is due, or at a broken send |
| OutboxWorker.RowIsARun | scripts/process_notification_outbox.py:157-175 | processing one row is a run of the step system from claim to commit or rollback |
| OutboxWorker.PassIsARun | scripts/process_notification_outbox.py:139-176 | a whole pass is a run of the step system, whether it ends at the limit, with nothing due or at a broken send |
| OutboxWorker.ErrorsDuplicateWithoutLimit | scripts/process_notification_outbox.py:161-166 | for every policy and every n some run without a crash delivers a row n + 1 times and ends with it sent |
| OutboxWorker.DuplicateWithoutLossIff | app/services/real_notification_dispatcher.py:255-258 | where no delivered transaction is lost to a crash or an error, two deliveries are possible exactly with at least two retries |
| OutboxWorker.PoisonRowStopsThePass | scripts/process_notification_outbox.py:161-166 | a broken row at the head of the due order stops the pass before any row is handled |
| OutboxWorker.PoisonBlocksEveryPass | scripts/process_notification_outbox.py:161-166 | over any number of passes before its TTL such a row keeps every row and event as it is and stays at the front |
| OutboxWorker.PoisonEndsAtItsTtl | scripts/process_notification_outbox.py:97-104 | and the first pass at or after its TTL, whatever its sends would do, fails it |
| OutboxWorker.TtlEndsThePoison | scripts/process_notification_outbox.py:97-104 | once its TTL passed, the first pass fails that row whatever its send would do |
| Calendar.OrdinalOrdersDates | app/core/application_history.py:32-54 | comparing dates is comparing their day numbers |
| Calendar.OrdinalOfNextDay | app/core/application_history.py:131-151 | consecutive calendar days have consecutive day numbers |
| Calendar.OrdinalsCountDays | app/core/application_history.py:131-151 | the difference of two day numbers is the number of days from one date to the other |
| Calendar.MonthLengths | app/core/application_history.py:32-37 | months but February alternate between 31 and 30 days, starting over in August |
| Calendar.GregorianCycle | app/core/application_history.py:32-37 | leap years repeat after 400 years of 146,097 days, and January 1 of year 1 is day 1 |
| Calendar.AddYearsIsValid | app/core/application_history.py:32-37 | adding years gives a valid date and moves the day only for Feb 29 into a common year |
| Calendar.AddYearsIsMonotone | app/core/application_history.py:32-37 | later dates never move to earlier ones; they meet only for Feb 28 and 29 into a common year |
| Calendar.WindowStartFormula | app/core/application_history.py:40-54 | the start is max(today - years, min(majority, today)), exactly when the years are not negative or majority does not replace it |
| Calendar.PlainWindowStart | app/core/application_history.py:40-54 | without a birth date, or for one of age before the plain start, the window is the plain number of years |
| Calendar.WindowStartIsNotInTheFuture | app/core/application_history.py:40-54 | when the start is not after today, exactly |
| Calendar.WindowStartMovesForward | app/core/application_history.py:40-54 | the start never moves back as today advances |
| HistoryCoverage.Sweep | app/core/application_history.py:134-155 | the loop computes the verdict of the sweep |
| HistoryCoverage.ValidateHistoryEntries | app/core/application_history.py:92-157 | entry errors are reported first, then the sweep's; no error means accepted |
| HistoryCoverage.ValidateAgainstWindow | app/core/application_history.py:57-157 | the same for entries with calendar dates, with the window start computed from today and the birth date |
| CoverageTheorems.EntryErrorsAreComplete | app/core/application_history.py:99-114 | at each index the first rule an entry breaks is reported (start missing, start in the future, end before start), and nothing else |
| CoverageTheorems.EarlyErrorsAreComplete | app/core/application_history.py:92-122 | the same for all errors found before coverage: no entries at all, and no current one |
| CoverageTheorems.DatedEntryAccountsFor | app/core/application_history.py:115-117 | in calendar dates an entry accounts for the days from its start to its end, or to today if current, open or ending later |
| CoverageTheorems.SweepMeaning | app/core/application_history.py:133-155 | the sweep accepts exactly the histories that reach back and are bridged day by day up to today |
| CoverageTheorems.VerdictMeaning | app/core/application_history.py:71-78 | no error exactly for well-formed entries, one current, and a continuous history; none with a negative tolerance |
| CoverageTheorems.ReportedGapIsTheFirst | app/core/application_history.py:147-155 | which of the two errors is reported, and that the day it names is the end of an entry and the first day nothing leads past |
| CoverageTheorems.VerdictIgnoresOrder | app/core/application_history.py:133-155 | permuting the entries never changes the verdict |
| CoverageTheorems.AcceptedHistoryCoversTheWindow | app/core/application_history.py:71-78 | acceptance leaves no run of tolerance + 1 uncovered days in the window |
| CoverageTheorems.CoverageIsExact | app/core/application_history.py:133-155 | for any window and tolerance the sweep accepts exactly when it is reached in time, the window's days are covered and no interval ended before it unfollowed |
| CoverageTheorems.AcceptedIffCoveredAndNothingStale | app/core/application_history.py:71-78 | the whole verdict in days of the window: entries well-formed, one current, window covered, and every entry that ended before it followed within the tolerance |
| CoverageTheorems.StaleEntryExample | app/core/application_history.py:135-155 | a concrete accepted history that a finished older entry makes refused |
| CoverageTheorems.GapMustBeBelowTheTolerance | app/core/application_history.py:142-145 | two pieces with a gap pass exactly when the gap is strictly below the tolerance |
| VersionedEdits.Application.ApplyAll | app/core/application_history.py:186-213 | a series of edits leaves the overwritten columns and the history of the specification |
| VersionedEdits.ChangedIsVisible | app/core/application_history.py:199-203 | a snapshot is due exactly when an edit changes a mapped field |
| VersionedEdits.SnapshotRestores | app/core/application_history.py:206-213 | reading a snapshot back gives every mapped field of the prior entry; it ends today and is marked as a versioned edit |
| VersionedEdits.SnapshotIff | app/core/application_history.py:199-205 | a snapshot is taken exactly when an edit changes the view and the anchor is neither null, empty nor zero |
| VersionedEdits.AddressColumns | app/core/application_history.py:165-173 | history columns of an address are named as the application's, without the residence prefix |
| VersionedEdits.EmploymentColumns | app/core/application_history.py:175-183 | those of an employment too, but that the hire date is the entry's start |
| VersionedEdits.HistoryListsPriorViews | app/core/application_history.py:186-213 | the history lists exactly the distinct anchored states left behind, once per visit, in order |
| VersionedEdits.NoAnchoredViewIsLost | app/core/application_history.py:12-15 | every anchored state is current or can be read back |
| SlidingWindow.AdmittedIffRoomInWindow | app/core/auth.py:217-232 | a call is admitted exactly when its identifier has fewer than the maximum of admissions in (now - window, now] |
| SlidingWindow.RateLimiter.IsAllowed | app/core/auth.py:217-232 | the same for the pruned lists, the full log being only a ghost; other identifiers' lists are untouched |
| SlidingWindow.RateLimiter.ServeAll | app/core/auth.py:217-232 | over a run each call is granted exactly when fewer than the maximum of its identifier's earlier calls were granted in the window before it |
| SlidingWindow.PruningIsInvisible | app/core/auth.py:224-226 | pruning is invisible to every cutoff still to come |
| SlidingWindow.AtMostMaxPerWindow | app/core/auth.py:228-231 | no window of the configured length holds more than the maximum, for any identifier and run |
| SlidingWindow.IdentifiersAreIndependent | app/core/auth.py:221-222 | what one identifier is granted does not depend on the others' calls |
| FixedWindow.MultiKeyLimiter.CheckUserRateLimit | app/core/rate_limit.py:38-50 | decision and new bucket, with a new key created at the second clock reading |
| FixedWindow.MultiKeyLimiter.CheckEndpoint | app/core/rate_limit.py:63-88 | the class picks one of the configured limits, the key alone the bucket, over 60 seconds; a refusal carries Retry-After |
| FixedWindow.MultiKeyLimiter.ServeKey | app/core/rate_limit.py:63-88 | a run under one key follows the trace the bounds are about |
| FixedWindow.LimitsHoldPerEpoch | app/core/rate_limit.py:42-50 | per epoch each class gets at most its limit and all classes at most the largest |
| FixedWindow.FirstCallOpensTheWindow | app/core/rate_limit.py:17-20 | the first request of a key is admitted and its window runs from the second clock reading |
| FixedWindow.RefusedIffEpochIsFull | app/core/rate_limit.py:46-47 | refused exactly when the open epoch already holds the class's limit of admissions of any class |
| FixedWindow.TwiceTheLimitPerInterval | app/core/rate_limit.py:42-50 | any half-open interval of one window length sees at most twice the class limit |
| FixedWindow.RetryAfterIsTheWait | app/core/rate_limit.py:91-94 | Retry-After is the remaining wait rounded down, so it is never too long and less than a second short |
| NulFilter.Handle | app/core/null_byte_middleware.py:43-69 | passes through, rejects or replays according to the scan of the delivered body |
| NulFilter.TaintedIff | app/core/null_byte_middleware.py:55-57 | refused are exactly the bodies with a zero byte, or with a backslash, the letter u in either case and four zeros |
| NulFilter.DeliveredUpToTheEnd | app/core/null_byte_middleware.py:43-53 | the body is every request chunk up to the last one or a disconnect, other messages skipped |
| NulFilter.Replay.ReceiveAll | app/core/null_byte_middleware.py:59-69 | the application gets the body once and then only disconnects |
| NulFilter.ChunkingIsInvisible | app/core/null_byte_middleware.py:43-53 | the delivered body is the concatenation of the chunks, wherever it was cut |
| NulFilter.DecodedNulIffLiveEscape | app/core/null_byte_middleware.py:21-27 | a decoded string holds U+0000 exactly when an escape of it follows an even run of backslashes |
| NulFilter.AcceptedBodiesDecodeClean | app/core/null_byte_middleware.py:55-57 | no string literal of an accepted body decodes to a text with U+0000 |
| NulFilter.NeedlessRefusals | app/core/null_byte_middleware.py:55-57 | a clean string is refused exactly when every occurrence of the pattern follows an odd run of backslashes |
| NulFilter.EscapedBackslashIsRefused | app/core/null_byte_middleware.py:55-57 | an escaped backslash followed by u0000 is clean and refused |
| IncomeLabels.NormalizeJoinsWords | app/core/intake_policy.py:46-49 | normalization keeps exactly the words of the label, joined by single underscores |
| IncomeLabels.WordsHoldLettersAndDigits | app/core/intake_policy.py:46-49 | the words hold exactly the lower-case letters and digits of the label |
| IncomeLabels.NormalizeIsIdempotent | app/core/intake_policy.py:46-49 | normalizing twice is normalizing once |
| IncomeLabels.RefusedIffWordPrefix | app/core/intake_policy.py:68-84 | refused exactly when a blocked entry's words are a prefix of the label's words |
| IncomeLabels.NothingToRefuse | app/core/intake_policy.py:68-84 | a missing or empty label is never refused |
| SinLuhn.CheckLuhn | app/core/validation.py:90-100 | the loop decides whether the weighted digit sum is a multiple of ten |
| SinLuhn.SingleDigitErrorsAreCaught | app/core/validation.py:90-100 | changing one digit of an accepted number to another makes it rejected |
| SinLuhn.AdjacentSwapsAreCaught | app/core/validation.py:90-100 | an adjacent swap goes unnoticed exactly for equal digits and for 0 with 9 |
| SinLuhn.OddLengthsMatchTheStandard | app/core/validation.py:90-100 | for odd lengths it is the right-to-left check of Annex B of ISO/IEC 7812-1 |
| SinLuhn.EvenLengthsDiffer | app/core/validation.py:94-97 | for every even length but zero some number passes the standard check and fails this one |
| SinLuhn.NormalizedSinIsItsDigits | app/core/validation.py:103-119 | accepted exactly for nine valid digits within the length limit; the answer is the input's own digits, and an over-long input is a bad request |
| SinLuhn.DropControlKeepsText | app/core/validation.py:14-14 | dropped are the control characters other than tab, line feed and carriage return |
| SinLuhn.NormalizeSinIsAFixpoint | app/core/validation.py:103-119 | normalizing an accepted SIN again returns it |
| Numbering.BackfillHasNoGaps | alembic/versions/081_application_number_loan_number.py:66-83 | the backfilled numbers are exactly the consecutive ones after the start |
| Numbering.BackfillFollowsTheOrder | alembic/versions/081_application_number_loan_number.py:66-83 | numbers follow (created_at, id) and are not repeated |
| Numbering.Tables.Upgrade | alembic/versions/081_application_number_loan_number.py:69-109 | the sequence continues one past the last backfilled number |
| Numbering.Tables.Insert | alembic/versions/081_application_number_loan_number.py:110-117 | a default-minted number exceeds every earlier one |
| Numbering.Tables.InsertAll | alembic/versions/081_application_number_loan_number.py:110-117 | any series of inserts, with rolled-back ones between, gets strictly increasing fresh numbers |
| Numbering.Tables.InheritNumbers | alembic/versions/081_application_number_loan_number.py:135-151 | loans take their application's number, pairwise distinct; loans without application get none |
| RiskScores.RiskScoreTable.InsertRow | alembic/versions/073_risk_score_model.py:117-134 | an insert is accepted exactly when both unique indexes allow it |
| RiskScores.RiskScoreTable.UpdateRow | alembic/versions/073_risk_score_model.py:158-183 | an update is accepted exactly when the trigger lets it through |
| RiskScores.RiskScoreTable.DeleteRow | alembic/versions/073_risk_score_model.py:161-164 | a delete is always refused and changes nothing |
| RiskScores.InsertAcceptedIff | alembic/versions/073_risk_score_model.py:117-134 | a new row is refused only for a taken id, a taken sequence number or a second current row |
| RiskScores.AcceptedUpdateRetires | alembic/versions/073_risk_score_model.py:158-183 | an accepted update keeps the key and the compared columns and takes the row from current to retired |
| RiskScores.HistoryIsKept | alembic/versions/073_risk_score_model.py:156-195 | over every run no row disappears, compared columns never change, retired rows are frozen |
| RiskScores.UpdatedAtMostOnce | alembic/versions/073_risk_score_model.py:165-178 | a row is updated at most once, and is retired by it |
| RiskScores.OneCurrentRow | alembic/versions/073_risk_score_model.py:127-134 | each application has at most one current row in every reachable table |
| RiskScores.OnlyTheFlagDiffersIff | alembic/versions/073_risk_score_model.py:23-27 | an accepted update differs in the flag only exactly when the uncompared columns were left alone |
| RiskScores.RestChangesOnceAtMost | alembic/versions/073_risk_score_model.py:165-178 | uncompared columns can be rewritten in the retiring update and never again |

## Left out

- Reference strings, payment types, vendor ids and timestamps of ledger rows: labels that no computation reads.
- The UPDATE and DELETE trigger of the ledger: the ledger class offers no operation it would refuse.
- RestartsIff: not for rows backdated before the cutover after the pass; what they do to the balance of that date is `BackdatedRowsMoveTheBalance`.
- EngineForwardIsPureActuals: no later reversals, which may take back rows of the history the fresh loan lacks.
- DeliveriesPerRun: counts the workers' deliveries; the inline send that enqueued the row may have been accepted too.
- ProcessOnce: no failing commit, which raises out of the pass; the step system has it as a roll-back.
- Vendor senders, recipient lookup, suppression and redaction: one outcome per send.
- The inline dispatcher's enqueue: a step that adds a pending row with one attempt.
- Parsing of the retry-delay setting: the delays are a list of non-negative numbers.
- The endless `--loop` mode and its sleeping: single passes only.
- Calendar years outside 1 to 9999, where Python's dates fail: years are unbounded.
- Error texts and labels of the history checks: the kinds of error and their indexes remain.
- Requests that replace a history list in the same call: only edits of the current entry are modelled.
- Clocks that go back and concurrent calls in the limiters: a single non-decreasing sequence of calls per process.
- Choice of limiter key and endpoint class from a request: both are inputs.
- Content-type and method tests of the NUL filter: one flag; UTF-8 decoding of non-ASCII bytes, which stand for themselves.
- Case folding and white-space stripping of labels: a function that leaves normalized text alone.
- Character classes of the SIN clean-up: parameters in which no digit is blank or a control character.
- The decimal text of application numbers: integers.
- Explicitly supplied application numbers: only default-minted ones.
- Foreign keys of the score table, whose cascades would meet the trigger.
- Permissions, encryption, HTTP retries, routing and the other migrations: declarative or easy members only.
