# Verification model of the warehouse and loan backend

This project models the parts of the backend whose correctness is hard to see from one function at a time, and proves
properties that hold of every input, every reachable state or every run. `dafny verify dfyconfig.toml` verifies all of
it within its default limits.

The same shape recurs throughout. The tables are values, and a service call is a function from one committed state to
the next or to the error it raises; a *run* is any sequence of calls. Theorems about runs are lemmas over these
functions. Beside them, a class with the tables as fields runs each service as the repository does, row by row with its
commit or rollback; every method is proved to have exactly the effect of the function and to keep the invariant that the
runs keep. What a call does is also stated without these functions, in the modules whose names end in `Effects`, in
`Audiences` and in `JalaliLandmarks`: exactly when it is accepted, and what it changes, from its own arguments and the
rows before it. Where such a lemma needs an invariant of the tables (`OneActive`, `OnePolicyEach`, `SerialsAreUnique`,
`RequestsOk`), the `RunKeepsInv` lemma of the same tables gives it in every reachable state.

* **Gregorian to Jalali conversion** (`Truncation`, `Jalali`, `Gregorian`, `JalaliCalendar`, `JalaliConversion`,
  `JalaliLandmarks`, `JalaliRounding`). `_jal_cal` computes the length of a year twice, through `march` and through
  `leap`. The two are proved to agree for every supported year, and from that `_d2j` is proved to be a two-sided
  inverse of counting days. The functions take the division and the constant of line 66 as parameters, so that the
  file as written can be compared with the algorithm it follows and with division through binary64 floats (IEEE
  754-2019).
* **Notification outbox** (`Outbox`, `Audiences`, `RelayRuns`, `RelayEvents`, `Draining`). Any number of relays and
  emitters run interleaved, with claims, deliveries, crashes, rollbacks and restarts at any point. A poll claims and
  delivers its whole batch before its first commit, so the model's transaction is the poll.
* **Stock** (`StockLedger`, `StockTransactions`, `Stock`, `StockInvariants`, `StockEffects`, `StockService`).
  Quantities, the append-only ledger, low-stock alerts, retirement and item requests; interleaved transactions under
  placement locks are proved equivalent to a serial order.
* **Refresh tokens** (`TokenFamilies`, `TokenEffects`, `TokenService`). Rotation chains, reuse detection and
  deactivation.
* **Scope rules** (`Scope`, `Directory`). One authorisation rule in its three forms.
* **Loans** (`Loans`, `LoanBounds`, `LoanCaps`, `LoanEffects`, `LoanService`) and **assets** (`Assets`,
  `AssetHistories`, `AssetEffects`, `AssetService`). Bounds that follow from checks made at one moment, and a history
  that replays to the current state.

Two findings are stated as theorems, each with its exact condition. The loan amount cap does not bound the sum of
active loans, because activation does not look at the sum again; `LoanCaps.CapIsKeptExactlyWhen` says for which limits it
nevertheless does. And an assignment does not look at retirement, so a retired asset can have a holder:
`AssetHistories.FreedomIsKeptExactlyUnless` and `AssetHistories.RetiredStayFreeExactlyUnless` say after which calls and
on which runs, and `AssetHistories.RetiredIsHeldInSomeRun` gives one.

The documentation and the code disagree in one place that matters here. `relay.py` (lines 8-9) and `service.py`
(lines 110-111) of the notification module say that each event commits on its own. The code delivers the whole batch
before the first commit (`relay.py` line 97, `service.py` lines 107-115), and the model follows the code.

Things outside the model become parameters: the answer of a scope check (`granted`, `access`, `covered`), the clock,
the outcome of a password check, and the ids of new rows where a call does not choose them. Times are seconds, money is
in hundredths and quantities are in thousandths.

## Model

| member | source | states |
|---|---|---|
| Truncation.TruncationIsUnique | backend/app/common/jalali.py:23-29 | The quotient rounded toward zero is the only one whose remainder is smaller than the divisor, of either sign, and has the sign of the dividend, in both directions |
| Truncation.RoundedQuotientIsExact | backend/app/common/jalali.py:23-25 | Truncating any correctly rounded binary64 quotient gives the exact truncated quotient, for operands up to 2^28 over 2^18 |
| Truncation.Binary64DividerIsExact | backend/app/common/jalali.py:23-25 | A division that goes through binary64 agrees with exact truncating division on those operands |
| Truncation.SomeDivisionGoesThroughBinary64 | backend/app/common/jalali.py:23-25 | A correctly rounded quotient exists for all operands, so there is a division for the other facts to speak of |
| JalaliRounding.Binary64ConversionIsExact | backend/app/common/jalali.py:61-102 | Every date of years 1 to 9999 converts (or fails) the same through `int(a / b)` on floats as with exact division |
| Jalali.ComputeJalCal | backend/app/common/jalali.py:32-58 | The loop over the break table computes leap, Gregorian year and March day of the segment that holds the year, or the range error |
| Jalali.ComputeD2j | backend/app/common/jalali.py:82-97 | The reassignments of `k` and `jy` give the date in the first or second half of the year, or in the year before |
| Gregorian.G2dIsDayNumber | backend/app/common/jalali.py:61-69 | `_g2d` is the closed-form day number of the civil calendar, less the constant of line 66 |
| Gregorian.NextIsSuccessor | backend/app/common/jalali.py:61-69 | The day number goes up by one from each civil date to the next, over months, leap years and centuries |
| Gregorian.D2gInvertsDayNumber | backend/app/common/jalali.py:72-79 | `_d2g` recovers every Gregorian date from its day number |
| Gregorian.AsWrittenIsOneDayBehind | backend/app/common/jalali.py:61-79 | `_d2g(_g2d(x) + 1)` is x, and `_d2g(_g2d(x))` is the day before x |
| Gregorian.BeforeIsOrder | backend/app/common/jalali.py:61-69 | One date is before another exactly when its day number is smaller |
| JalaliCalendar.LeapStep | backend/app/common/jalali.py:45-57 | `leap_j` grows by one after exactly the years whose `leap` is 0, and the next year's `leap` is then 1, inside segments and over breaks |
| JalaliCalendar.LeapIsByRule | backend/app/common/jalali.py:17-58 | `leap` is 0 exactly for the leap years of a rule stated in numerals: nineteen stretches of years, each in cycles of 33 and with its own last five years |
| JalaliCalendar.LeapCountsBack | backend/app/common/jalali.py:53-58 | `leap` counts the years since the last leap year, from 0 in the first supported year |
| JalaliCalendar.MarchIsLinear | backend/app/common/jalali.py:50-69 | The Gregorian leap terms of `leap_g` and `_g2d` cancel: 1 Farvardin is 365 jy plus the final `leap_j` plus 1947953 |
| JalaliCalendar.MarchAgreesWithLeap | backend/app/common/jalali.py:32-69 | The day number that `march` gives for 1 Farvardin is the one reached by laying end to end the years of the calendar's leap rule |
| JalaliCalendar.YearLengthIsAgreed | backend/app/common/jalali.py:32-69 | Consecutive 1 Farvardins are 366 days apart exactly when the next year's `leap` is 1, exactly when this year's is 0, exactly when the rule makes this year leap |
| JalaliCalendar.MarchIsInMarch | backend/app/common/jalali.py:50-52 | 1 Farvardin falls on 15 to 30 March in every supported year |
| JalaliConversion.D2jInvertsDayOf | backend/app/common/jalali.py:82-97 | From 1 Farvardin -61 to the last convertible day, `_d2j` gives a valid Jalali date whose count of days is the input |
| JalaliConversion.DayOfInvertsD2j | backend/app/common/jalali.py:82-97 | Every valid Jalali date in that range is `_d2j` of its count of days |
| JalaliConversion.DayOfIsInjective | backend/app/common/jalali.py:82-97 | No two valid Jalali dates share a day number |
| JalaliConversion.ConversionFailsExactlyOutsideTable | backend/app/common/jalali.py:34-35 | The range error is raised exactly for dates before 560-01-02 or after 3799-01-01 |
| JalaliConversion.ConversionKeepsTheDay | backend/app/common/jalali.py:100-102 | The converted date is the Jalali date of the same day |
| JalaliConversion.ConsecutiveDatesStayConsecutive | backend/app/common/jalali.py:82-107 | Consecutive Gregorian dates give consecutive Jalali dates, and the year steps up by one exactly at 1 Farvardin |
| JalaliConversion.SubtractionIsHarmless | backend/app/common/jalali.py:61-102 | From 560-01-02 to 3798-12-31 the conversion equals the one without the `- 1` of line 66 |
| JalaliConversion.GuessesDifferOnNewYearsDay | backend/app/common/jalali.py:66-83 | On each 1 January the two variants nevertheless start from different Gregorian years |
| JalaliConversion.YearsFollowDates | backend/app/common/jalali.py:105-107 | A later date never has an earlier Jalali year, over all convertible dates |
| JalaliConversion.CurrentYearIsMonotone | backend/app/common/jalali.py:110-121 | The current Jalali year never steps back as the wall clock that `now` reads moves on |
| JalaliConversion.EveryYearComes | backend/app/common/jalali.py:110-121 | For each supported year some instant has it as its current Jalali year |
| JalaliLandmarks.StretchesBeginOn | backend/app/common/jalali.py:17-102 | The Gregorian dates of 1 Farvardin of the first year of each of the nineteen stretches |
| JalaliLandmarks.NewYearPoints | backend/tests/test_jalali.py:15-30 | 1 Farvardin 1400, 1403, 1404 and 1405, as the tests have them |
| JalaliLandmarks.YearEndPoints | backend/tests/test_jalali.py:15-30 | The last days of 1403, a leap year, and of 1404 |
| JalaliLandmarks.MidYearPoints | backend/tests/test_jalali.py:15-30 | The other reference points of the tests |
| JalaliLandmarks.CurrentYearIsExact | backend/app/common/jalali.py:110-121 | A year is the current one exactly from its first midnight in Tehran, three and a half hours ahead, to the next year's |
| JalaliLandmarks.ErrorNamesTheYear | backend/app/common/jalali.py:34-35 | A refused date is refused with the Jalali year that begins in the Gregorian year of the day before |
| JalaliLandmarks.DatesBeforeTheTable | backend/app/common/jalali.py:88-97 | The dates of 560 before the first supported year are counted back from it |
| Scope.AllowedUnits | backend/app/common/scope.py:70-90 | The loop returns the global flag and exactly the nonempty unit ids of the assignments that grant the operation |
| Scope.CanIsCoveredByUnits | backend/app/common/scope.py:35-90 | `can` holds of a target exactly when `allowed_units` covers it, if the target's ids are not empty strings |
| Scope.AgreementNeedsNames | backend/app/common/scope.py:35-90 | The two forms agree for all contexts and operations exactly on the targets without an empty id |
| Scope.SplitUndoesJoin | backend/app/common/scope.py:16-18 | Splitting at the first two colons undoes the join when module and resource have no colon |
| Scope.JoinUndoesSplit | backend/app/modules/user/contracts.py:249 | Joining undoes the split of any code that can be split |
| Scope.ComparisonsAgree | backend/app/modules/user/contracts.py:249-256 | Comparing joined codes and comparing split parts agree on every code exactly when module and resource have no colon |
| Directory.RecipientsAreThoseWhoCan | backend/app/modules/user/contracts.py:241-282 | For an existing workplace, or none, every user the recipient query returns passes `can` in the own loaded context; where no stored name has a colon they are exactly the users who do |
| Directory.RecipientsCanVisibly | backend/app/modules/user/contracts.py:241-282 | Whatever is stored, they are exactly the users who pass `can` by an assignment whose module and resource have no colon |
| Directory.PermissionsAgree | backend/app/modules/user/repository.py:130-137 | The query's joins over roles find a permission exactly when the loaded context contains it |
| Directory.ContextIsLoaded | backend/app/modules/user/repository.py:125-153 | A context is loaded exactly for an active account that is not deleted, with exactly the codes of its roles and its own scope rows |
| Outbox.ClaimedFrom | backend/app/modules/notification/repository.py:19-34 | Exactly the first `limit` pending events are selected, each once |
| Outbox.Session.RecordEvent | backend/app/modules/notification/contracts.py:17-35 | A known event type is appended as pending; an unknown one is refused |
| Outbox.Session.DeliverCritical | backend/app/modules/notification/contracts.py:38-59 | One row per recipient and status delivered, or, for a repeated recipient, the caller's transaction rolled back |
| Outbox.Session.ResolveRecipients | backend/app/modules/notification/service.py:27-50 | The result has no duplicates and is exactly the named users plus the scope holders; it fails exactly for unreadable audiences |
| Outbox.Session.MarkRetry | backend/app/modules/notification/repository.py:66-76 | One more attempt, pending again before the fifth and failed at it |
| Outbox.Session.DeliverEvent | backend/app/modules/notification/service.py:58-104 | The event ends as the outcome function says, and rows are inserted for its active recipients where missing |
| Outbox.Session.ClaimPending | backend/app/modules/notification/repository.py:16-38 | The selected events, and no others, become `processing` |
| Outbox.Session.DeliverClaimedBatch | backend/app/modules/notification/service.py:107-115 | The first `count` claimed events are delivered, with their rows, and nothing else changes |
| Outbox.Session.PollOnce | backend/app/modules/notification/relay.py:90-102 | A poll delivers the first `limit` pending events and all their rows, or, when stopped after some deliveries, changes nothing |
| Outbox.Session.ReclaimProcessing | backend/app/modules/notification/repository.py:41-51 | Exactly the `processing` events go back to pending; nothing else of any event changes |
| Outbox.InsertMissingCounts | backend/app/modules/notification/service.py:84-98 | The conflict-skipping insert adds each missing row once and leaves the others |
| Audiences.SplitNeedsTwoColons | backend/app/modules/user/contracts.py:249 | Unpacking a code raises exactly when it has fewer than two colons |
| Audiences.ResolutionFailsExactly | backend/app/modules/notification/service.py:27-50 | Resolution raises exactly when an id or the workplace is not a UUID or the permission has fewer than two colons |
| Audiences.ActiveRecipientsAre | backend/app/modules/notification/service.py:40-71 | The recipients are exactly the active, undeleted accounts that the payload names or that hold its permission through a role and cover its workplace through a scope row |
| Audiences.DeliveryOutcome | backend/app/modules/notification/service.py:58-104 | An unknown type fails at once; an unreadable payload costs an attempt and fails at the fifth; a readable one is delivered if anybody is addressed and skipped if not |
| Audiences.NotifiedAre | backend/app/modules/notification/service.py:83-101 | The rows of a delivery are for exactly the accounts addressed |
| Audiences.ClaimIsOldestFirst | backend/app/modules/notification/repository.py:19-34 | A claim takes as many pending events as the limit allows, in order, and none while an older pending one is left |
| RelayRuns.StepKeepsInv | backend/app/modules/notification/relay.py:80-102 | Every step of any relay or emitter keeps the invariant on tables, open transactions and locks |
| RelayRuns.RunKeepsInv | backend/app/modules/notification/relay.py:80-102 | So does every run |
| RelayRuns.ExactlyOnce | backend/app/modules/notification/service.py:83-101 | At most one notification per event and user exists in any run, and only for delivered events |
| RelayRuns.DeliveredRowsAreExact | backend/app/modules/notification/service.py:27-104 | A relay-delivered event's rows are exactly the active, undeleted accounts that its payload names or its scope reaches by the tables it read; a critical event's are exactly its emitter's list |
| RelayRuns.DeliveriesReadRealDirectories | backend/app/modules/notification/service.py:70-71 | The directory that a relay delivery is judged by was in force at a moment of the run at which that event was pending and claimed by an open transaction |
| RelayEvents.EventsAreEmitted | backend/app/modules/notification/contracts.py:17-59 | Every event of a run was emitted by one step of it, and keeps the type, audience and, when critical, recipients of that step |
| RelayEvents.EmissionCanBeClaimed | backend/app/modules/notification/contracts.py:17-35 | An event just recorded is appended pending, and any idle relay can claim it at once, whatever the others hold |
| RelayEvents.CriticalEmissionEffect | backend/app/modules/notification/contracts.py:38-59 | A critical event is appended delivered, with exactly one row per recipient and no other row changed; a repeated recipient or an unknown type changes nothing |
| RelayEvents.RollbackFreesClaims | backend/app/modules/notification/relay.py:51-102 | After a crash or a restart of a relay, any idle relay can claim the same batch, and no event or row has changed |
| RelayRuns.AttemptsAreBounded | backend/app/modules/notification/repository.py:66-76 | No committed event is `processing`; attempts never pass 5, are below 5 while pending and are 5 only when failed |
| RelayRuns.RestartTakesNothing | backend/app/modules/notification/relay.py:80-88 | A start-up reclaim changes no event and no other relay's transaction |
| RelayRuns.TerminalIsForever | backend/app/modules/notification/repository.py:54-76 | Delivered, failed and skipped events never change again, nor do their rows |
| RelayRuns.WriteKeepsTables | backend/app/modules/notification/service.py:83-101 | Writing a delivery meets no conflicting row and leaves the tables consistent |
| RelayRuns.OtherTransactionIsUntouched | backend/app/modules/notification/repository.py:19-25 | A commit leaves every other open transaction's claimed events as they were |
| RelayRuns.UndisturbedPoll | backend/app/modules/notification/relay.py:90-102 | Claim, deliveries and commit of one relay, taken step by step, leave the events and the rows that one poll leaves |
| Draining.PollUsesBatch | backend/app/modules/notification/relay.py:90-102 | A poll uses up at least one of the remaining attempts for each event of its batch |
| Draining.ShortPollReachesAll | backend/app/modules/notification/repository.py:16-38 | A poll whose batch is not full brings every pending event one attempt closer to its end |
| Draining.OutboxDrains | backend/app/modules/notification/relay.py:90-102 | From N pending events, floor(5N / limit) + 5 undisturbed polls leave every event terminal, whatever the directory at each |
| Draining.RelayDrainsOutbox | backend/app/modules/notification/relay.py:68-102 | Any run of relays and emitters that leaves no transaction open is brought to an outbox of terminal events by that many polls of one relay, taken as steps of the run |
| StockLedger.AppendKeepsLedger | backend/app/modules/warehouse/repository.py:432-456 | A quantity write with its movement keeps quantity equal to the sum of deltas and every result a non-negative prefix sum |
| StockLedger.MoveEffect | backend/app/modules/warehouse/service.py:766-936 | A locked move adds, takes or sets its own amount, is refused only for want of stock or of a change, and writes that one movement |
| StockLedger.ApplyAllKeepsLedger | backend/app/modules/warehouse/service.py:766-936 | So does any sequence of receive, issue, adjust and fulfilment moves |
| StockTransactions.MovesCommute | backend/app/modules/warehouse/repository.py:404-429 | Moves on placements that another transaction has not written do the same before and after its commit |
| StockTransactions.WriteEffect | backend/app/modules/warehouse/repository.py:404-429 | A write waits exactly while another transaction has written the placement; otherwise it is carried out on what the transaction sees, or ends a refused call |
| StockTransactions.EndEffect | backend/app/modules/warehouse/repository.py:404-456 | A commit publishes exactly what the transaction sees and its moves, a rollback nothing |
| StockTransactions.InterleavingsAreSerial | backend/app/modules/warehouse/repository.py:404-429 | Any interleaving of lock-taking transactions leaves the ledger of the committed ones run one by one in commit order |
| StockTransactions.LedgerHoldsUnderConcurrency | backend/app/modules/warehouse/repository.py:404-456 | Under every interleaving the quantity is the sum of deltas, each result a prefix sum, none negative |
| StockInvariants.CallKeepsInv | backend/app/modules/warehouse/service.py:116-936 | Every accepted call keeps ledger, alerts, retired shelves, references, requests and conservation consistent |
| StockInvariants.RunKeepsInv | backend/app/modules/warehouse/service.py:116-936 | So does every run |
| StockInvariants.LedgerExplainsStock | backend/app/modules/warehouse/service.py:766-936 | In every reachable state the quantity is the sum of the placement's deltas and each recorded result a prefix sum |
| StockInvariants.AlertsFollowEpisodes | backend/app/modules/warehouse/service.py:632-763 | A placement has an unresolved alert exactly when its last movement left it below the threshold then read and no first-time retirement of its item, shelf or warehouse followed; never two |
| StockInvariants.RetiredShelfHoldsNothing | backend/app/modules/warehouse/service.py:552-593 | Placements on a retired shelf hold nothing, in every reachable state |
| StockInvariants.FulfillmentConserves | backend/app/modules/warehouse/request_service.py:247-357 | An item's fulfilment deltas add up to minus the quantities on its fulfilled request lines |
| StockInvariants.FulfillmentMovesEveryLine | backend/app/modules/warehouse/request_service.py:270-321 | An accepted fulfilment appends exactly one fulfilment movement per line, in order: from the placement picked for it, of its item, for its whole quantity; and no two lines share a placement |
| StockInvariants.MovementsAreOnActivePlacements | backend/app/modules/warehouse/service.py:608-936 | No call moves stock on a retired shelf, and only a fulfilment moves a retired item |
| StockInvariants.RequestsMoveForward | backend/app/modules/warehouse/request_service.py:180-357 | Whatever the call, a request only goes from pending to approved or rejected and from approved to fulfilled, one version each, and its lines never change |
| StockInvariants.EvaluatedKeepsAlerts | backend/app/modules/warehouse/service.py:632-723 | Evaluation leaves an active alert exactly when the quantity is below the threshold, and other placements' alerts as they were |
| StockInvariants.EndedKeepsAlerts | backend/app/modules/warehouse/service.py:726-763 | Retirement ends exactly the active alerts of the retired item, shelf or warehouse |
| StockInvariants.AcceptedCallIsMoves | backend/app/modules/warehouse/contracts.py:120-187 | An accepted stock call writes exactly the locked moves that its own arguments ask for: one for a receipt, issue or adjustment, one per line for a fulfilment |
| StockEffects.ReceiptEffect | backend/app/modules/warehouse/service.py:766-831 | Accepted exactly for an active item and shelf of a warehouse in scope; appends one receipt of its quantity, raises that placement by it, follows with the alert, and changes nothing else |
| StockEffects.IssueEffect | backend/app/modules/warehouse/service.py:834-886 | Accepted exactly when the placement is active, in scope and holds the quantity; takes it, with one movement, and changes nothing else |
| StockEffects.AdjustmentEffect | backend/app/modules/warehouse/service.py:889-936 | Accepted exactly when the target differs; brings the placement to it, with one movement of the difference |
| StockEffects.EvaluationFollows | backend/app/modules/warehouse/service.py:632-723 | Row by row: the open alert is closed as recovered at or above the threshold, one with the quantity and threshold is opened below it when none is open, and no other row changes |
| StockEffects.RetirementEnds | backend/app/modules/warehouse/service.py:726-763 | Row by row: the open alerts of the item, shelf or warehouse are closed with the reason for it, and no other row changes |
| StockEffects.CreationEffect | backend/app/modules/warehouse/service.py:116-504 | New items, warehouses and shelves are active and of version 1, under exactly their checks |
| StockEffects.UpdateEffect | backend/app/modules/warehouse/service.py:177-227 | The threshold is set when given, for an active item of the version; nothing else changes |
| StockEffects.ItemRetirementEffect | backend/app/modules/warehouse/service.py:230-272 | Accepted whatever the stock; retires the item once |
| StockEffects.ShelfRetirementEffect | backend/app/modules/warehouse/service.py:552-593 | Accepted exactly when every placement on the shelf is empty, or the shelf is retired already |
| StockEffects.WarehouseRetirementEffect | backend/app/modules/warehouse/service.py:422-465 | Accepted exactly when every placement on its active shelves is empty, or it is retired already |
| StockEffects.NewRequestEffect | backend/app/modules/warehouse/request_service.py:78-165 | Accepted exactly with a purpose and positive quantities of distinct active items; appends one pending request of version 1 with its lines |
| StockEffects.DecisionEffect | backend/app/modules/warehouse/request_service.py:180-244 | Approves or rejects, as it says, exactly a pending request of the version; nothing else changes |
| StockEffects.LineEffect | backend/app/modules/warehouse/contracts.py:120-187 | A line is met exactly when it fits its placement, by one movement of its quantity |
| StockEffects.FulfillmentEffect | backend/app/modules/warehouse/request_service.py:247-357 | Accepted exactly when the payload names every line once and each line by itself fits its placement; takes each quantity from its placement and no other, and marks the request |
| StockService.Session.EvaluateAlert | backend/app/modules/warehouse/service.py:632-723 | Raises, resolves or leaves the placement's alert |
| StockService.Session.ResolveAlertsForRetirement | backend/app/modules/warehouse/service.py:726-763 | The loop resolves exactly the matching alerts, with their reason |
| StockService.Session.Move | backend/app/modules/warehouse/repository.py:432-456 | Quantity, movement and alert change together |
| StockService.Session.ReceiveStock | backend/app/modules/warehouse/service.py:766-831 | Commits the receipt, creating the placement when it is missing, or refuses with the committed state unchanged |
| StockService.Session.IssueStock | backend/app/modules/warehouse/service.py:834-886 | Commits the issue or refuses; never more than the stock |
| StockService.Session.AdjustStock | backend/app/modules/warehouse/service.py:889-936 | Commits the new quantity or refuses; never the quantity already there |
| StockService.Session.UpdateItem | backend/app/modules/warehouse/service.py:177-227 | Changes threshold and version without touching alerts; a duplicate found at the flush rolls back |
| StockService.Session.RetireItem | backend/app/modules/warehouse/service.py:230-272 | Retires the item and ends its alerts, once |
| StockService.Session.RetireShelf | backend/app/modules/warehouse/service.py:552-593 | Retires the shelf unless it holds stock |
| StockService.Session.RetireWarehouse | backend/app/modules/warehouse/service.py:422-465 | Retires the warehouse unless one of its active shelves holds stock |
| StockService.Session.CreateRequest | backend/app/modules/warehouse/request_service.py:78-165 | The loop over lines accepts exactly positive quantities of distinct active items; a blank purpose is refused |
| StockService.Session.DecideRequest | backend/app/modules/warehouse/request_service.py:180-244 | Only a pending request of the given version is approved or rejected |
| StockService.Session.BuildPicks | backend/app/modules/warehouse/request_service.py:270-281 | The loop over the payload fails exactly on an unknown or repeated line |
| StockService.Session.FulfillLine | backend/app/modules/warehouse/contracts.py:120-187 | One line is issued in the caller's transaction, or refused |
| StockService.Session.FulfillEveryLine | backend/app/modules/warehouse/request_service.py:288-321 | The loop issues every line, or reports the error of the first that fails |
| StockService.Session.FulfillRequest | backend/app/modules/warehouse/request_service.py:247-357 | All lines and the request commit together; whichever line fails, the committed state is unchanged |
| TokenFamilies.FamiliesAreChains | backend/app/modules/user/auth_service.py:81-197 | In every reachable state a family is one chain linked by `rotated_to_id`, wholly revoked or rotated up to an active last member |
| TokenFamilies.InactiveAccountsAreSignedOut | backend/app/modules/user/employee_service.py:275-339 | In every reachable state an inactive account has only revoked tokens |
| TokenFamilies.RotatedAtMostOnce | backend/app/modules/user/auth_service.py:99-146 | Once a token has been rotated, no later call on any run rotates it again |
| TokenFamilies.ReuseKillsFamily | backend/app/modules/user/auth_service.py:108-110 | After a token that is not active is presented, its family is revoked and no later call ever adds to it |
| TokenFamilies.TokensGoToActiveAccounts | backend/app/modules/user/auth_service.py:25-146 | Whichever call issues a token, its account is active, and a renewal uses up an unexpired active token of the same family and user |
| TokenFamilies.CallKeepsInv | backend/app/modules/user/auth_service.py:25-197 | Login, rotation, logout, password set, deactivation and reactivation keep the family and account invariant |
| TokenFamilies.RunKeepsInv | backend/app/modules/user/auth_service.py:25-197 | So does every run |
| TokenFamilies.UserRevokedKeepsTokens | backend/app/modules/user/auth_service.py:156-170 | Revoking the families of a user leaves no token of the user unrevoked and every chain intact |
| TokenEffects.AccountEffect | backend/app/modules/user/employee_service.py:120-207 | A new account is open, with an active employee record or none, and without tokens |
| TokenEffects.LoginEffect | backend/app/modules/user/auth_service.py:25-96 | Exactly an open account with its password gets a new family of one active token for seven days; otherwise nothing changes |
| TokenEffects.RotationEffect | backend/app/modules/user/auth_service.py:99-146 | Issues exactly for a usable token of an open account, replacing it; a stale token, or a closed account, ends the family; an expired token changes nothing |
| TokenEffects.LogoutEffect | backend/app/modules/user/auth_service.py:149-153 | Replies done exactly for a usable token, and then every token of its family is revoked and every other is as it was |
| TokenEffects.PasswordEffect | backend/app/modules/user/employee_service.py:354-387 | A new password ends all of the user's tokens and nobody else's |
| TokenEffects.ActivityEffect | backend/app/modules/user/employee_service.py:275-339 | Account and employee change together, one version on; a deactivation ends all of the user's tokens and nobody else's |
| TokenEffects.LogoutIsForGood | backend/app/modules/user/auth_service.py:149-153 | After a logout no later call on any run adds to the family or renews one of its tokens |
| TokenEffects.PasswordIsForGood | backend/app/modules/user/employee_service.py:354-387 | After a new password the same holds of every family the user had |
| TokenEffects.DeactivationIsForGood | backend/app/modules/user/employee_service.py:275-339 | After a deactivation too, even once the account is active again |
| TokenEffects.DeadIsRefused | backend/app/modules/user/auth_service.py:99-153 | A token of an ended family is refused for renewal and for logout |
| TokenService.Session.RevokeMembers | backend/app/modules/user/auth_service.py:174-177 | The loop revokes exactly the members of the family |
| TokenService.Session.RevokeAllForUser | backend/app/modules/user/auth_service.py:156-170 | The nested loops revoke exactly the families in which the user has a token that is not revoked |
| TokenService.Session.Login | backend/app/modules/user/auth_service.py:25-96 | A new family for an active account with the right password, else a refusal |
| TokenService.Session.Rotate | backend/app/modules/user/auth_service.py:99-146 | Rotates an active, unexpired token of an active account; a stale one, or an inactive account, revokes the family; an expired one changes nothing |
| TokenService.Session.Logout | backend/app/modules/user/auth_service.py:149-153 | Revokes the family of an active, unexpired token, else refuses |
| TokenService.Session.SetEmployeeActive | backend/app/modules/user/employee_service.py:275-339 | Account and employee change together under the version check, and a deactivation revokes the account's families |
| TokenService.Session.SetUserPassword | backend/app/modules/user/employee_service.py:354-387 | Revokes the account's families |
| Loans.LivePolicy | backend/app/modules/loan/repository.py:30-40 | Finds a live policy of the workplace and year other than the excluded one, exactly when there is one |
| LoanBounds.RunKeepsInv | backend/app/modules/loan/service.py:124-555 | Every run keeps admissions, versions and policy uniqueness consistent |
| LoanBounds.EveryRequestWasWithinLimits | backend/app/modules/loan/service.py:286-357 | An employee's k-th request of a year was accepted under a yearly limit of at least k, likewise for the lifetime, and its amount with the active sum was within the cap |
| LoanBounds.AdmissionsAreTrue | backend/app/modules/loan/service.py:286-357 | Those limits and that active sum are the tables' own: some call of the run submitted the request for an active employee, when the policy was live in the table and the rows had that sum; `LoanEffects.AggregatesAre` says which rows those are |
| LoanBounds.GoverningPolicyIsUnique | backend/app/modules/loan/service.py:124-214 | At most one live policy exists per workplace and year, after any creations, year changes and retirements |
| LoanBounds.YearsNeverStepBack | backend/app/modules/loan/service.py:297-298 | Requests carry nondecreasing years in submission order |
| LoanBounds.ClosedStaysClosed | backend/app/modules/loan/service.py:448-555 | Settled and cancelled requests are never changed again |
| LoanBounds.OnlyStaffGetLoans | backend/app/modules/loan/service.py:448-487 | Whichever call makes a request active, it was pending and its employee is active at that moment |
| LoanBounds.ActiveSumIsBounded | backend/app/modules/loan/service.py:286-555 | If no policy call goes beyond them, the active sum per employee, year and type never exceeds the smaller of yearly and lifetime limit times the cap, whatever the order of calls |
| LoanCaps.BoundIsReached | backend/app/modules/loan/service.py:448-487 | For all limits some run within them makes exactly that much active |
| LoanCaps.CapIsKeptExactlyWhen | backend/app/modules/loan/service.py:323-345 | The active sum stays within the cap in every run exactly when the yearly limit or the lifetime limit is at most 1, or the cap is 0 |
| LoanEffects.AggregatesAre | backend/app/modules/loan/repository.py:305-336 | The two counts are the numbers of all the rows of the employee, ever and of the year; the sum is that of the amounts of the rows that are active, of the year and of the type |
| LoanEffects.SubmissionEffect | backend/app/modules/loan/service.py:300-357 | Accepted exactly when both counts and the type's own maximum leave room under the policy in force; otherwise the first that does not is the error; appends one pending row |
| LoanEffects.SubmissionNeeds | backend/app/modules/loan/service.py:291-306 | Refused for an unknown or inactive employee, an instant without a year, or a workplace without a policy in force this year, exactly then |
| LoanEffects.TransitionEffect | backend/app/modules/loan/service.py:448-555 | Activation, settling and cancelling each lead to their own status from exactly the statuses that permit them, one version on, and change no other row |
| LoanEffects.SumFollowsStatus | backend/app/modules/loan/repository.py:323-336 | Activation raises the sum of its employee, year and type by its amount, ending an active request lowers it by the same, and no other sum changes |
| LoanEffects.OtherCallsKeepSums | backend/app/modules/loan/repository.py:323-336 | No other call changes any active sum |
| LoanEffects.NewPolicyEffect | backend/app/modules/loan/service.py:124-158 | Accepted exactly for a year from 1300 to 1500 that no live policy governs; holds the given limits, in force |
| LoanEffects.PolicyUpdateEffect | backend/app/modules/loan/service.py:161-214 | Accepted exactly for a live policy of the version whose new year is free; exactly the given fields take their values |
| LoanEffects.PolicyRetirementEffect | backend/app/modules/loan/service.py:217-244 | Deletes exactly a live policy of the version |
| LoanService.Session.SubmitRequest | backend/app/modules/loan/service.py:286-393 | The checks in their order: the first failing rule is the error, and otherwise the request is appended as pending |
| LoanService.Session.ActivateRequest | backend/app/modules/loan/service.py:448-487 | Only a pending request of the given version and an active employee is activated |
| LoanService.Session.SettleRequest | backend/app/modules/loan/service.py:490-523 | Only an active request of the given version is settled |
| LoanService.Session.CancelRequest | backend/app/modules/loan/service.py:526-555 | Only a pending or active request of the given version is cancelled |
| LoanService.Session.CreatePolicy | backend/app/modules/loan/service.py:124-158 | A policy is added unless a live one governs the workplace and year |
| LoanService.Session.UpdatePolicy | backend/app/modules/loan/service.py:161-214 | Exactly the given fields change, under the version check, unless the new year is taken |
| LoanService.Session.RetirePolicy | backend/app/modules/loan/service.py:217-244 | A live policy of the given version is retired |
| Assets.WithSerial | backend/app/modules/warehouse/asset_repository.py:179-184 | Finds an unretired asset with the serial, exactly when there is one |
| AssetHistories.CallKeepsInv | backend/app/modules/warehouse/asset_service.py:133-494 | Every call keeps the history explaining each asset, serials unique and retirements recorded once, without a holder |
| AssetHistories.HistoryExplainsAsset | backend/app/modules/warehouse/asset_service.py:133-494 | The version is the number of history entries; replaying assignments and returns, with each `from` the holder before, gives the current holder; the holder CHECK holds; retired exactly when a retirement is recorded |
| AssetHistories.LiveSerialsAreUnique | backend/app/modules/warehouse/models.py:375-380 | Unretired assets have distinct serials |
| AssetHistories.OnlyActiveEmployeesReceive | backend/app/modules/warehouse/asset_service.py:318-416 | Whichever call gives an asset to an employee, the asset was free and the employee is active at that moment |
| AssetHistories.OneWinnerPerVersion | backend/app/modules/warehouse/asset_service.py:84-104 | Of all calls that name one version of an asset at most one ever changes anything |
| AssetHistories.RetiredIsHeldByLaterAssignment | backend/app/modules/warehouse/asset_service.py:250-416 | A retired asset has a holder only if it was assigned after its retirement |
| AssetHistories.RetiredCanBeAssigned | backend/app/modules/warehouse/asset_service.py:318-334 | Whatever the target and the caller, an assignment of a retired asset succeeds, or fails with the same error, as if it were not retired |
| AssetHistories.FreedomIsKeptExactlyUnless | backend/app/modules/warehouse/asset_service.py:133-494 | A call leaves every retired asset without a holder exactly unless it is an accepted assignment of a retired one |
| AssetHistories.RetiredStayFreeExactlyUnless | backend/app/modules/warehouse/asset_service.py:133-494 | Retired assets are without holders in every state of a run exactly when none of its calls is such an assignment |
| AssetHistories.RetiredIsHeldInSomeRun | backend/app/modules/warehouse/asset_service.py:318-334 | There is such a run: an asset is created, retired and assigned |
| AssetEffects.CreationEffect | backend/app/modules/warehouse/asset_service.py:133-181 | Accepted exactly when no unretired asset has the serial; appends a free asset of version 1 and its entry |
| AssetEffects.UpdateEffect | backend/app/modules/warehouse/asset_service.py:184-247 | Accepted exactly for the version and a serial that no other unretired asset has; sets it when given, one version and one entry on |
| AssetEffects.RetirementEffect | backend/app/modules/warehouse/asset_service.py:250-311 | Accepted exactly for a free asset of the version, or one retired already, which is left as it is |
| AssetEffects.AssignmentEffect | backend/app/modules/warehouse/asset_service.py:318-416 | Accepted exactly for a free asset of the version and an active employee in scope or a named place; the target becomes the holder and the entry's `to` |
| AssetEffects.ReturnEffect | backend/app/modules/warehouse/asset_service.py:419-494 | Accepted exactly for an assigned asset of the version; it is free afterwards and the holder is the entry's `from` |
| AssetService.Session.CreateAsset | backend/app/modules/warehouse/asset_service.py:133-181 | A free asset of version 1 and its entry, unless the serial is taken |
| AssetService.Session.UpdateAsset | backend/app/modules/warehouse/asset_service.py:184-247 | The serial changes under the version check, unless another unretired asset has it |
| AssetService.Session.RetireAsset | backend/app/modules/warehouse/asset_service.py:250-311 | Refused while assigned; a second retirement succeeds without a change, whatever its version |
| AssetService.Session.AssignAsset | backend/app/modules/warehouse/asset_service.py:318-416 | Sets the three holder columns for an active employee or a nonempty location, from no holder only |
| AssetService.Session.ReturnAsset | backend/app/modules/warehouse/asset_service.py:419-494 | Clears the holder and records it as the entry's `from` |

## Left out

- The frontend, HTTP routing, the BFF proxy, migrations, seeds, logging, configuration, JWT and password hashing.
- SQL and the ORM: tables are values, a query is a filter or a sum, and a commit is one step.
- Free text, audit rows, snapshots and masking. A call that only writes an audit row changes nothing here.
- The notification bus, the inbox, pagination, settings, Excel export and reports.
- The outbox events that warehouse, loan and asset calls record: emitters are steps of the outbox model instead.
- Claim order: events are ordered by their position; equal `created_at` values, and commits out of creation order, are not distinguished.
- A delivery reads one directory: the recipient query and the activity filter of one event are not separated in time.
- The Decimal arithmetic of quantities and money: values arrive quantised, rounding and column overflow are not modelled.
- `update_warehouse` and `update_shelf` change names and versions only. Names and codes of items, warehouses and shelves appear as the answer of the uniqueness check.
- Races between a retirement and a concurrent receipt: retirement, requests and alerts are modelled one call at a time; only quantity writes are interleaved.
- Interleaving inside token and loan calls: tokens and requests are read without row locks, and each call is one step here.
- Serial numbers come stripped and in lower case; two creations racing past the lookup are caught by the unique index, which is not modelled.
- The refresh-token lifetime is its default of 7 days, not a setting. Token hashes: a token is its position in the table, so distinct tokens never collide.
- JalaliConversion.CurrentYearIsMonotone: compares readings of one wall clock, since the code adds 3:30 to the reading without converting an aware time to UTC first; instants read in different zones are not compared. An instant whose Tehran date is past year 9999 overflows, which `Loans.YearAt` models.
- Outbox.Session.DeliverEvent: does not model the retry around the insert. A statement that the database refuses aborts the transaction, so the retry's own write fails too and the batch is rolled back, which is the relay's abort step.
- TokenService.Session.SetEmployeeActive: models employees with an account; for one without, no token changes.
