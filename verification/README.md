# Fantasy football core in Dafny

This project models three pieces of a fantasy-football backend and proves properties about them:

- **Adding a player to a fantasy team.** This covers the team and ownership lookups, the player lookup and the budget check. It then covers the position, club and squad caps, the current-gameweek lookup, and the two writes: selectPlayer and updateTeamBudget. Every refusal of the service's own checks is modelled, with the message the service builds, and so are the missing team, the missing player and the two failed writes. A database fault while reading the player is not modelled; see "Left out".
- **Match scoring.** This covers the points and bonus for one statistics entry, the clean-sheet rule, and the lookup that `storePlayerPerformance` does before it writes a performance row.
- **The sliding-window rate limiter and the retry helper** (`waitForNextSlot` and `withRetry`). Time is an explicit clock, and a sleep is returned as the delay waited.

How values are represented:

- Money is integer cents, because the columns are `DECIMAL(10,2)`.
- Times are integer milliseconds.
- The database is a `Store` value. Every repository call the service makes is recorded, in order, in a call log.
- A write can fail for reasons the store's contents do not explain. Those failures are an explicit `Faults` parameter.

The modules:

| module | file | what it holds |
|---|---|---|
| `Wrappers` | wrappers.dfy | `Option` and `Result` |
| `Text` | text.dfy | how numbers appear in messages |
| `Roster` | roster.dfy | entities, caps, counts, the composition checks, the error messages |
| `Service` | service.dfy | the store, the call log, the add-player operation (as written and corrected) |
| `ServiceProperties` | service_properties.dfy | check order, refusals, invariants |
| `ServiceScenarios` | service_scenarios.dfy | worked additions |
| `Scoring` | scoring.dfy | points, bonus, performance row |
| `RateLimit` | ratelimit.dfy | `waitForNextSlot` |
| `RateLimitTrace` | ratelimit_trace.dfy | runs of consecutive calls, the window bound |
| `Retry` | retry.dfy | `withRetry` |
| `RetryScenarios` | retry_scenarios.dfy | the retry runs of the test file |
| `RateLimitScenarios` | ratelimit_scenarios.dfy | the limiter runs of the test file |

## Model

| member | source | states |
|---|---|---|
| Roster.PositionLimit | src/services/fantasyTeamService.ts:103-114 | The caps are GK 2, DEF 5, MID 5 and FWD 3. A cap exists exactly for those four positions; any other position gets none. |
| Roster.PositionLimitsSumToSquadLimit | src/services/fantasyTeamService.ts:103-108 | The four position caps add up to the squad limit of 15. |
| Roster.CountPosition | src/services/fantasyTeamService.ts:109 | The filter-length count of a position is at most the selection's length. |
| Roster.CountClub | src/services/fantasyTeamService.ts:122 | The filter-length count of a club is at most the selection's length. |
| Roster.CountPositionIsIndexCount | src/services/fantasyTeamService.ts:109 | The count equals the number of indices whose entry has that position. |
| Roster.CountClubIsIndexCount | src/services/fantasyTeamService.ts:122 | The club count equals the number of indices whose entry is from that club. |
| Roster.CountPositionAppend | src/services/fantasyTeamService.ts:109 | Appending an entry raises its position's count by one and leaves every other position's count unchanged. |
| Roster.CountClubAppend | src/services/fantasyTeamService.ts:122 | Appending an entry raises its club's count by one and leaves every other club's count unchanged. |
| Roster.FirstClubName | src/services/fantasyTeamService.ts:124 | `find` gives nothing exactly when no entry is from the club. Otherwise it gives the club name of the first entry from the club. |
| Roster.Message | src/services/fantasyTeamService.ts:5-26 | The text of each refusal, from the three error classes and the plain errors at lines 113, 126 and 135. Its properties are stated by MessageSignature and MessagesDistinguishKinds. |
| Roster.MessageSignature | src/services/fantasyTeamService.ts:5-26 | For every refusal the checks can produce, that is, when a position error names one of the four positions, the error kind fixes the message's first character, and its ninth for the three "Maximum …" messages. |
| Roster.PositionLimitSignature | src/services/fantasyTeamService.ts:14-19 | "Maximum <position> …" carries the position's initial at index 8. |
| Roster.TeamLimitSignature | src/services/fantasyTeamService.ts:21-26 | "Maximum players from …" carries 'p' at index 8. |
| Roster.SquadFullSignature | src/services/fantasyTeamService.ts:135 | "Maximum squad size …" carries 's' at index 8. |
| Roster.BudgetSignature | src/services/fantasyTeamService.ts:5-12 | The budget message starts with 'I' and is longer than 8 characters. |
| Roster.MessagesDistinguishKinds | src/services/fantasyTeamService.ts:5-26 | Any two refusals of different kinds have different messages, for every argument the checks can produce, that is, when a position error names one of the four positions. |
| Roster.SignaturesDiffer | src/services/fantasyTeamService.ts:103-135 | Refusals of different kinds have different signatures, given that a position error names one of the four positions. |
| Roster.PositionMessageExample | src/services/fantasyTeamService.ts:16 | The message for four forwards is "Maximum FWD players (3) already selected". |
| Roster.BudgetMessageExample | src/services/fantasyTeamService.ts:8 | A budget of 3 against a price of 5 gives "Insufficient budget: Available budget is 3, required budget is 5". |
| Roster.CheckBudget | src/services/fantasyTeamService.ts:93-97 | The check refuses exactly when the budget is below the price. The refusal carries both amounts. |
| Roster.CheckComposition | src/services/fantasyTeamService.ts:102-136 | The candidate passes exactly when its position is known, that position is under its cap, its club has fewer than 3 players, and the squad has fewer than 15. |
| Roster.SizeIsSumOfPositionCounts | src/schemas.ts:26 | With only the four known positions, the selection's size is the sum of the four position counts. |
| Roster.SquadCheckUnreachable | src/services/fantasyTeamService.ts:132-136 | When every position is within its cap and the candidate's is below it, the selection has fewer than 15 players. |
| Roster.TeamNameAlwaysFound | src/services/fantasyTeamService.ts:123-128 | If every entry from the club carries a non-empty club name, "Team name not found" is never returned. |
| Roster.ClubCountPositiveHasMember | src/services/fantasyTeamService.ts:122-124 | A positive club count means `find` has an entry to return. |
| Roster.AcceptedAdditionKeepsQuotas | src/services/fantasyTeamService.ts:102-136 | Adding a candidate that passed the checks keeps every position, club and squad cap. |
| Service.RosterOf | src/services/fantasyTeamService.ts:100 | The selection read has no more entries than there are rows. Each entry carries its club's name from the clubs table. |
| Service.RosterOfRows | src/services/fantasyTeamService.ts:100 | The same, row by row. |
| Service.CurrentGameweekId | src/services/fantasyTeamService.ts:141-147 | A gameweek id is used exactly when it is present and non-zero, matching `!gameweekId`. |
| Service.Decide | src/services/fantasyTeamService.ts:43-147 | The first call is always getTeamById, and nothing is written before the commit. A missing team fails with TeamNotFound after that one call. A missing player on an owned team fails with PlayerNotFound after the player lookup, before the budget check. A decision to write implies that every check passed: the team and player exist, the team is owned by the caller, the budget covers the price, the composition passes and a gameweek is current. |
| Service.InsertSelection | scripts/setup-db.ts:126-135 | selectPlayer fails exactly on a repeated (team, gameweek, player) triple or a storage fault. Otherwise it appends the row with the next id. |
| Service.WriteBudget | src/services/fantasyTeamService.ts:163-168 | Only the team's budget changes. Every other team and the rest of the store stay the same. |
| Service.CommitSequential | src/services/fantasyTeamService.ts:149-174 | Success requires both writes to succeed, and then the row is added and the budget debited. A failed selectPlayer leaves the store unchanged, and updateTeamBudget is not called. A failed budget update leaves the inserted row in place. |
| Service.CommitAtomic | src/services/fantasyTeamService.ts:149-174 | Succeeds under the same conditions as the sequential commit, with the same result and the same final store. Any failure leaves the store exactly as it was. |
| Service.AddPlayerToTeamAsWritten | src/services/fantasyTeamService.ts:30-175 | Every failure other than the budget update leaves the store unchanged. A failed budget update leaves the team's new row appended with the next id, every budget as it was, and nothing else changed. A success appends the row for the current gameweek and lowers the team's budget by exactly the price, and that budget stays non-negative. Nothing else changes: not the players, the clubs, the gameweek, the other teams, or the team's other fields. |
| Service.AddPlayerToTeam | src/services/fantasyTeamService.ts:30-175 | Any failure leaves the store unchanged. A success appends the row for the current gameweek and lowers the team's budget by exactly the price, and that budget stays non-negative. Nothing else changes: not the players, the clubs, the gameweek, the other teams, or the team's other fields. |
| ServiceProperties.OwnershipCheckedFirst | src/services/fantasyTeamService.ts:43-55 | Another user's team is refused with the permission error. Only getTeamById is called, and the store is unchanged. |
| ServiceProperties.LookupFailures | src/services/fantasyTeamService.ts:44-89 | In both variants, a missing team fails with getTeamById's not-found error after that one call. A missing player on an owned team fails with "Player with id … not found" (src/repositories/playerRepository.ts:35) after getTeamById and findById, before the budget check (fantasyTeamService.ts:85-89). Neither failure writes. |
| ServiceProperties.BudgetCheckedBeforeSelectionRead | src/services/fantasyTeamService.ts:84-100 | A budget below the price is refused with both amounts, before the selection is read. |
| ServiceProperties.PositionCapRefuses | src/services/fantasyTeamService.ts:109-118 | A full position is refused with that position and its cap. The gameweek is never looked up. |
| ServiceProperties.UnknownPositionRefuses | src/services/fantasyTeamService.ts:110-114 | A position without a cap is refused with "Position limit not found". |
| ServiceProperties.ClubCapRefuses | src/services/fantasyTeamService.ts:120-130 | Three players from the club already selected gives a team-limit refusal that names the club. |
| ServiceProperties.MissingGameweekRefuses | src/services/fantasyTeamService.ts:141-147 | A missing gameweek, or gameweek 0, is refused without any write. |
| ServiceProperties.RefusedIffViolated | src/services/fantasyTeamService.ts:93-147 | For an owned team and an existing player, the addition is refused exactly when one of the five checks, each stated on its own, is violated. |
| ServiceProperties.FirstViolationWins | src/services/fantasyTeamService.ts:93-147 | A refusal reports the first violated check in the order budget, position, club, squad, gameweek. |
| ServiceProperties.RefusalsDoNotWrite | src/services/fantasyTeamService.ts:43-161 | Validation errors write nothing. A failed selectPlayer skips updateTeamBudget. |
| ServiceProperties.SelectionGrowsByOne | src/services/fantasyTeamService.ts:150-157 | After a success, the team's selection is the old one plus the new entry. Every other team's selection is unchanged. |
| ServiceProperties.AdditionKeepsStoreConsistent | src/services/fantasyTeamService.ts:93-174 | Every addition keeps budgets non-negative, selections within their caps, and triples unique. |
| Service.ErrorMessage | src/services/fantasyTeamService.ts:52-171 | Every error carries a message except the two passed through from getTeamById and selectPlayer. The texts are those at lines 54, 146 and 171, the refusals' messages, and the player-not-found text at src/repositories/playerRepository.ts:35. |
| ServiceProperties.ErrorMessageHead | src/services/fantasyTeamService.ts:52-171 | Each message starts with a character fixed by its error kind. The two that start with 'P', the missing player and the missing position limit, differ in their second character. |
| ServiceProperties.ErrorMessagesDistinguishKinds | src/services/fantasyTeamService.ts:52-171 | Any two errors of different kinds that both carry a message have different messages, for every error the operation can return. Each refusal kind counts as its own kind. |
| ServiceProperties.ConsistentStoreNeverSquadFull | src/services/fantasyTeamService.ts:132-136 | On a consistent store the squad-size refusal is never returned: the position caps already keep the squad under 15. |
| ServiceProperties.AsWrittenAgreesWithAtomic | src/services/fantasyTeamService.ts:149-174 | The service as written and the atomic one return the same result and make the same calls. Their stores are equal except after a failed budget update, where the atomic store is the original and the as-written one is not. |
| ServiceProperties.AsWrittenKeepsStoreConsistent | src/services/fantasyTeamService.ts:93-174 | The service as written also keeps budgets non-negative, selections within their caps, and triples unique. |
| ServiceProperties.AdditionKeepsLedger | src/services/fantasyTeamService.ts:139-174 | Every addition keeps each team's budget plus its spending unchanged. |
| ServiceScenarios.FirstForwardAccepted | src/services/fantasyTeamService.ts:138-174 | A forward at 8.50 with 20.00 to spend is accepted. The budget left is 11.50. |
| ServiceScenarios.FourthForwardRefused | src/services/fantasyTeamService.ts:116-123 | A fourth forward is refused with the forward cap even though the club cap is also reached. |
| ServiceScenarios.ThreeForwardsSelection | src/services/fantasyTeamService.ts:100 | Three selection rows read back as three forward entries of the club. |
| ServiceScenarios.ThreeOfAKind | src/services/fantasyTeamService.ts:109 | Three entries of one position count as 3. |
| ServiceScenarios.ShortBudgetRefused | src/services/fantasyTeamService.ts:93-97 | A budget of 3.00 against a price of 5.00 is refused and the store is unchanged. |
| ServiceScenarios.DuplicateSelectionRefused | scripts/setup-db.ts:134 | Selecting the same player twice in a gameweek fails at selectPlayer, and the store is unchanged. |
| ServiceScenarios.SequentialCommitPartialWrite | src/services/fantasyTeamService.ts:149-172 | As written, a failed budget update leaves the row without the debit. Budget plus spending grows by the price. |
| Scoring.PlayingPoints | src/services/playerStatsService.ts:101-106 | Minutes of 60 or more give 2 points, 1 to 59 give 1, and 0 or fewer give 0, each as an if-and-only-if. |
| Scoring.GoalValue | src/services/playerStatsService.ts:110 | A goal is worth 6 exactly for "G" and "D", 5 exactly for "M", and 4 otherwise. |
| Scoring.IsCleanSheet | src/services/playerStatsService.ts:144-152 | No position is ever credited with a clean sheet. |
| Scoring.CalculatePoints | src/services/playerStatsService.ts:94-142 | The total is the playing points plus goals times the goal value plus 3 per assist, minus 1 per yellow card and 3 per red card. The bonus is one of 0, 1, 2, 3 or 5, and it is odd exactly when a goal was scored. |
| Scoring.BonusRule | src/services/playerStatsService.ts:130-139 | The bonus computed from the nullable counts equals the rule's bonus for the counts read as 0 when null: 3 for two or more goals, or 1 for exactly one, plus 2 for two or more assists. |
| Scoring.NullCountsAsZero | src/services/playerStatsService.ts:109-117 | A null goal or assist count scores the same as 0. |
| Scoring.TotalMonotone | src/services/playerStatsService.ts:108-128 | More goals or assists never lower the total, and more cards never raise it. |
| Scoring.TallyByCounts | src/services/playerStatsService.ts:108-128 | Scoring event by event equals counting each kind of event and weighting it. |
| Scoring.PointsAreSumOfEvents | src/services/playerStatsService.ts:94-142 | calculatePoints agrees with an independent event-by-event tally. |
| Scoring.FindPlayer | src/services/playerStatsService.ts:43 | `find` gives nothing exactly when no player has the id. Otherwise it gives the first player with the id. |
| Scoring.PerformanceOf | src/services/playerStatsService.ts:43-84 | It fails with "Player stats not found in API response" exactly when the first team is missing or lacks the player. It fails with "Player statistics not found in API response" exactly when the first matching player has no entry. A success writes that entry with nulls as 0, no clean sheet and 0 saves. The row's total is scored for the entry's own position. Its bonus is 3 for two or more goals, or 1 for exactly one, plus 2 for two or more assists. |
| RateLimit.NewLimiter | src/utils/rate-limiter.ts:1-9 | A new limiter has recorded nothing and keeps the given limit. Its window is the one given, or 60000 ms when the argument is left out. |
| RateLimit.Prune | src/utils/rate-limiter.ts:14 | Filtering never lengthens the record. |
| RateLimit.PruneKeepsExactlyRecent | src/utils/rate-limiter.ts:14 | The filter keeps every time still in the window, with its multiplicity, and drops every other time. |
| RateLimit.PruneKeepsRecent | src/utils/rate-limiter.ts:14 | Everything kept lies in the window. |
| RateLimit.WaitForNextSlot | src/utils/rate-limiter.ts:11-24 | The record becomes the pruned record plus `now`. The call waits exactly when the pruned record holds at least the limit, and then waits `WaitTime` of the pruned record: until its oldest time leaves the window. |
| RateLimit.WaitTime | src/utils/rate-limiter.ts:17-19 | The wait is never negative. With nothing kept it is the whole window. When the oldest kept time is not in the future, the wait is at most the window, and when that time is still in the window, waiting brings the clock to exactly the moment it leaves. |
| RateLimit.WaitWithinWindow | src/utils/rate-limiter.ts:16-21 | A waiting call waits between 0 and the window, provided no recorded time lies in the future. |
| RateLimit.UnderLimitDoesNotWait | src/utils/rate-limiter.ts:16 | A window under its limit lets the call through without waiting. |
| RateLimit.PruneSortedIsSuffix | src/utils/rate-limiter.ts:14 | On a sorted record, pruning keeps a suffix, and everything before it has left the window. |
| RateLimit.NothingRecent | src/utils/rate-limiter.ts:14 | If the newest time of a sorted record has left the window, every time has, and pruning empties it. |
| RateLimitTrace.WaitForNextSlotCorrected | src/utils/rate-limiter.ts:11-24 | The corrected call records the moment the request is let through. |
| RateLimitTrace.CorrectedWaitsAsWritten | src/utils/rate-limiter.ts:16-23 | The correction waits exactly as long as the original. Its record differs only in its last entry. |
| RateLimitTrace.Run | src/utils/rate-limiter.ts:11-24 | Consecutive calls give one release time per call. |
| RateLimitTrace.CountRecent | src/utils/rate-limiter.ts:14 | The count of times in a window is at most the number of times. |
| RateLimitTrace.AsWrittenExceedsLimit | src/utils/rate-limiter.ts:12-23 | With one request per 500 ms, three back-to-back calls are released at 0, 500 and 500. Two requests therefore pass in one window. |
| RateLimitTrace.TwoInWindow | src/utils/rate-limiter.ts:14 | In the releases 0, 500, 500, two lie in the window ending at the third. |
| RateLimitTrace.RunAsWrittenUnfold | src/utils/rate-limiter.ts:11-24 | A run as written is the first release followed by the run from the updated limiter. |
| RateLimitTrace.RunCorrectedUnfold | src/utils/rate-limiter.ts:11-24 | A corrected run is the first release followed by the run from the updated limiter. |
| RateLimitTrace.RunOfThree | src/utils/rate-limiter.ts:11-24 | A three-call run is the three successive releases. |
| RateLimitTrace.ThreeCalls | src/utils/rate-limiter.ts:16-23 | For one request per 500 ms at time 0: the first call passes, the second waits 500, and the third, at 500, passes without waiting. |
| RateLimitTrace.FirstCall | src/utils/rate-limiter.ts:11-24 | An empty limiter lets the first call through and records 0. |
| RateLimitTrace.SecondCall | src/utils/rate-limiter.ts:16-23 | The second call at 0 waits 500 but records 0. |
| RateLimitTrace.ThirdCall | src/utils/rate-limiter.ts:14-23 | At 500, both zeros have left the window, so the third call passes. |
| RateLimitTrace.PruneAllRecent | src/utils/rate-limiter.ts:14 | A record wholly inside the window is kept intact. |
| RateLimitTrace.CountRecentAppend | src/utils/rate-limiter.ts:14 | Appending a time raises the window count by one exactly when that time is in the window. |
| RateLimitTrace.CountRecentDropOld | src/utils/rate-limiter.ts:14 | Times at the front that have left the window do not count. |
| RateLimitTrace.CountRecentAllRecent | src/utils/rate-limiter.ts:14 | When every time is in the window, the count is the length. |
| RateLimitTrace.CountRecentAntitone | src/utils/rate-limiter.ts:14 | A later window end never holds more of the times. |
| RateLimitTrace.KeptIsRecentSuffix | src/utils/rate-limiter.ts:14 | Between corrected calls, the kept record is the suffix of past releases that is still in the window, and it is at most the limit long. |
| RateLimitTrace.ReleaseTime | src/utils/rate-limiter.ts:16-21 | A corrected call is released at its start when under the limit. Otherwise it is released when the oldest kept time leaves the window. |
| RateLimitTrace.StepKeepsInv | src/utils/rate-limiter.ts:11-24 | One corrected call keeps the relation between the record and the past releases. |
| RateLimitTrace.InvAfterRelease | src/utils/rate-limiter.ts:14-23 | The relation holds again after a release at the computed time. |
| RateLimitTrace.AtMostLimitAtRelease | src/utils/rate-limiter.ts:16-21 | At a release, fewer than the limit of the earlier releases lie in the window. |
| RateLimitTrace.ShiftBound | src/utils/rate-limiter.ts:11-24 | The window bounds carry over from the rest of a run to the whole run. |
| RateLimitTrace.CorrectedStep | src/utils/rate-limiter.ts:11-24 | A corrected run is its first release, kept under the invariant, followed by the run from there. |
| RateLimitTrace.RunFromInv | src/utils/rate-limiter.ts:11-24 | From any state that keeps the invariant, every release is at most the limit-th in its window. |
| RateLimitTrace.CorrectedWithinLimit | src/utils/rate-limiter.ts:1-24 | With the correction, no window ever holds more than the limit, for every positive limit and window and every schedule of calls. |
| Retry.MergeOptions | src/utils/rate-limiter.ts:34-45 | Each given option wins, and each option left out takes its default of 3, 1000, 10000 or 2. |
| Retry.MergeExtremes | src/utils/rate-limiter.ts:34-45 | Giving nothing yields the defaults. Giving everything yields exactly what was given. |
| Retry.DelayAt | src/utils/rate-limiter.ts:47-63 | Every delay after the first is at most maxDelay. |
| Retry.DelayClosedForm | src/utils/rate-limiter.ts:47-63 | For a factor of at least 1, a non-negative maxDelay and k at least 1, delay k equals min(initialDelay × factor^k, maxDelay). |
| Retry.DelaysNonDecreasing | src/utils/rate-limiter.ts:47-63 | With 0 ≤ initialDelay ≤ maxDelay and a factor of at least 1, the delays never decrease. |
| Retry.Waits | src/utils/rate-limiter.ts:60 | The i-th wait is delay i. |
| Retry.FirstSuccess | src/utils/rate-limiter.ts:49-51 | Returns the index of the first successful call, with every call before it failed, or the call limit if none succeeds. |
| Retry.FirstSuccessFrom | src/utils/rate-limiter.ts:49-51 | The same, searching from a given call. |
| Retry.WithRetry | src/utils/rate-limiter.ts:41-70 | The operation is called until the first success, up to maxRetries + 1 calls, waiting the successive delays between calls. The result is that success, or the "Operation failed after <maxRetries> retries. Last error: <message>" error. |
| Retry.FirstSuccessIsFirst | src/utils/rate-limiter.ts:49-51 | A success preceded only by failures is the first success. |
| Retry.FirstSuccessNone | src/utils/rate-limiter.ts:49-57 | With only failures, no call succeeds. |
| RetryScenarios.RetriesUntilSuccess | src/__tests__/rate-limiter.test.ts:39-58 | Two failures with three retries allowed: the third call succeeds, after waits of 10 and 20. |
| RetryScenarios.GivesUpAfterMaxRetries | src/__tests__/rate-limiter.test.ts:60-73 | An operation that always fails, with two retries allowed, is called 3 times. The error is "Operation failed after 2 retries. Last error: Persistent failure". |
| RateLimitScenarios.TwoPerWindowCalls | src/__tests__/rate-limiter.test.ts:7-35 | On a fresh limiter of two requests per 500 ms, two back-to-back calls at 0 pass without waiting and the third waits 500. |
| RateLimitScenarios.TwoPassAtOnce | src/__tests__/rate-limiter.test.ts:11-19 | Two back-to-back calls are both let through at time 0. |
| RateLimitScenarios.ThirdIsDelayed | src/__tests__/rate-limiter.test.ts:21-35 | Three back-to-back calls are let through at 0, 0 and 500. The third is more than 100 and less than 600 ms after the start. |
| RetryScenarios.BackoffGrows | src/__tests__/rate-limiter.test.ts:75-105 | With an initial delay of 50 and a factor of 2, the waits are increasing and each exceeds 40. |
| Text.DigitChar | src/services/fantasyTeamService.ts:16 | Every digit value renders as a digit character. |
| Text.NatToString | src/services/fantasyTeamService.ts:16 | The decimal form is non-empty, all digits, and has no leading zero. |
| Text.NatToStringRoundTrip | src/services/fantasyTeamService.ts:16 | Reading the decimal form back gives the number. |
| Text.IntToString | src/utils/rate-limiter.ts:68 | A negative number renders with a minus sign followed by its magnitude. |
| Text.IntToStringRoundTrip | src/utils/rate-limiter.ts:68 | Every integer, negative ones included, renders as an optional minus sign and digits, and reads back as the same integer. |
| Text.FormatCents | src/services/fantasyTeamService.ts:8 | Whole amounts print without a fraction, and negative amounts print with a sign. |
| Text.FormatNonNegativeCents | src/services/fantasyTeamService.ts:8 | The rendering starts with a digit. |
| Text.FormatNonNegativeCentsRoundTrip | src/services/fantasyTeamService.ts:8 | A non-negative amount renders as digits, optionally followed by a point and one or two digits. It reads back as the same number of cents, and a fraction never ends in 0. |
| Text.FormatCentsRoundTrip | src/services/fantasyTeamService.ts:8 | Every amount, negative ones included, reads back from its rendering as the same number of cents, so no two amounts print alike. |
| Text.FormatWholeExample | src/services/fantasyTeamService.ts:8 | 20.00 prints as "20". |
| Text.FormatTenthsExamples | src/services/fantasyTeamService.ts:8 | 8.50 prints as "8.5" and 11.50 as "11.5". |
| Text.FormatCentsExample | src/services/fantasyTeamService.ts:8 | 0.05 prints as "0.05". |
| Text.FormatNegativeExample | src/services/fantasyTeamService.ts:8 | -2.50 prints as "-2.5". |

## Left out

- The repository calls the service makes (getTeamById, getTeamSelection, getCurrentGameweek, selectPlayer and updateTeamBudget) are not declared in src/repositories/fantasyTeamRepository.ts. That file holds only six empty methods: getAllFantasyTeams, getUserTeams, createFantasyTeam, updateFantasyTeamName, updateFantasyTeamBudget and updateFantasyTeamPoints. The calls are modelled from how the service uses their results and from the tables in scripts/setup-db.ts.
- The DatabaseError "Failed to find player by id" is not modelled. playerRepository.findById returns it when its query throws (src/repositories/playerRepository.ts:39-41), and the service passes it on (src/services/fantasyTeamService.ts:87-89). In the model the player read never faults; only the missing player is modelled.
- The errors of getTeamById and selectPlayer are passed through with the repository's text. Neither method is declared in the repository, so that text is not modelled, and `Service.ErrorMessage` gives `None` for them. The missing-player error is passed through too, but its text is declared (src/repositories/playerRepository.ts:35), so it is modelled.
- Floating point and JavaScript coercions are not modelled. Prices and budgets are integer cents, with no `Number(...)` on DECIMAL strings. The budget message prints amounts as JavaScript numbers would; a driver that returned DECIMAL strings would print "3.00".
- The ownership test compares the team's `user_id` with the caller's id as integers. The interface declares `user_id` a string, and a string and a number are never `===`.
- Counts in the scoring rule are integers. Fractional or NaN values from the API are not modelled.
- Retry options given explicitly as `undefined` are not modelled. An option is either given or left out.
- Real time is not modelled: `Date.now()` is a parameter, `setTimeout` is the delay returned, and there is no concurrency between overlapping calls.
- Logging (`console.log` and `console.error`) is left out.
- The outer try/catch that wraps thrown exceptions as "Failed to add player to team: …" is left out. No modelled step throws.
- storePlayerPerformance's SQL upsert and its `rowCount > 0` result are left out. The model returns the row it would write.
- getTeamSelection takes no gameweek, so the caps count every row of the team, from every gameweek. The model keeps this behaviour.
- A player with no club (`players.team_id` may be NULL, scripts/setup-db.ts:71) has no value of its own: `clubId` is an integer. Such a player is modelled by one club id shared by all club-less players and missing from `clubNames`. That matches the source: `null === null` counts club-less players together, their joined team name is null, and a full count gives "Team name not found".
- Roster.PositionLimit: gives a cap only to GK, DEF, MID and FWD, and refuses every other position. The source looks the position up in a plain object (src/services/fantasyTeamService.ts:103-111). An inherited key such as "constructor" or "toString" finds a function rather than `undefined`, and the comparison with the count is then false, so such a position would pass uncapped. The model assumes positions come from the enum at src/schemas.ts:26.

## Findings

| source | as written | input that shows it | evidently intended | confidence | as-written member | corrected member |
|---|---|---|---|---|---|---|
| src/services/fantasyTeamService.ts:149-172 | selectPlayer and updateTeamBudget are two separate writes. A failed budget update returns an error but leaves the inserted row in place. | A team with 20.00 adds a forward at 8.50, selectPlayer succeeds, and updateTeamBudget fails: the player is selected and the budget stays at 20.00. | Both writes happen or neither does, as the comment on line 149 says. | not executed | ServiceScenarios.SequentialCommitPartialWrite | ServiceProperties.AsWrittenAgreesWithAtomic |
| src/utils/rate-limiter.ts:12-23 | After waiting, the limiter records `now` from before the wait, not the time the request was let through. | Limit 1 per 500 ms and three back-to-back calls at time 0: the releases are 0, 500 and 500, so two requests pass in the window ending at 500. | No window holds more requests than the limit. | not executed | RateLimitTrace.AsWrittenExceedsLimit | RateLimitTrace.CorrectedWithinLimit |
