# A verified model of the platform's protocol core

This Dafny project models the parts of the platform whose correctness is hard to see from the code and
proves what they promise, for every input and over whole runs:

- the concentrated-liquidity pool contract (`TickMath`, `TickFormula`, `LiquidityMath`, `SplitBurn`,
  `SwapMath`, `FeeGrowth`, `DynamicFee`, `ILHedge`, `AmmPool`, `SwapExact`, `AmmLiquidity`, `LiquidityExact`,
  `FeeRun`, `SplitRun`, `Amm`);
- the workflow saga engine: start protocol, forward execution, compensation (`WorkflowStart`,
  `WorkflowTables`, `WorkflowExecution`, `Compensation`, `Saga`);
- on-chain governance, access control and vesting (`Governance`, `GovernanceExact`, `Acl`,
  `Vesting`, `VestingExact`, `VestingContract`);
- the audit hash chain, its archive and its back-fill migration (`AuditChain`, `AuditTables`,
  `AuditTamper`, `AuditLog`);
- the sliding-window limiter, the bridge rate limit and the circuit breaker (`SlidingWindow`,
  `FixedWindow`, `BridgeLimit`, `CircuitBreaker`).

`Arith`, `Wrappers` and `Sorting` are shared helpers. `dafny verify dfyconfig.toml` checks everything.

## How the model is built

- Code that updates state is a class with the source's fields. Each of its methods is proved equal to a
  specification function of the old state, and the whole-run theorems are lemmas about those functions. What
  each specification function does, and exactly when it succeeds, is stated independently of it, from the
  numbers and the call alone (`SwapExact`, `LiquidityExact`, `VestingExact`, `GovernanceExact`, `AuditTamper`).
- `i128`, `u64` and `u128` arithmetic is explicit. `saturating_mul` and `saturating_add` clamp, division
  truncates toward zero, casts reinterpret. A plain operation that overflows aborts the call, and an aborted
  or failing call leaves the stored state unchanged.
- Clock readings, caller permissions, pause flags, random ids, the outcome of each step's `execute` and
  `compensate` function, hash and signature are parameters, so every theorem holds for all of them.
- Concurrent starts are a state machine whose actions are the single database and Redis commands, run in any
  interleaving, with errors (before or after the command took effect), crashes and lock expiry.

## Where the code differs from what one would expect

Each item is a theorem; where a promise fails, the exact condition under which it holds is proved as well.

- `Isqrt`: the loop is the floor square root everywhere except at `i128::MAX`, where its first addition
  overflows. `compute_dynamic_fee` never passes that value.
- `StepDownLandsOnTarget`: selling token A always moves the price the whole way to the target tick, however
  small the amount, because `current_sqrt_price.saturating_mul(Q64)` clamps for every price of the table.
- `StepDownTradesRange`: for the same reason such a swap pays out the token B of the whole tick, however
  little token A was offered.
- `TradeDirection`: a pool created at a price outside the table moves toward the table, against the
  direction of the trade, when it is swapped at the end of the tick range.
- `FeeExact`, `StrayReadingRefused`: the dynamic fee cannot be updated while the squared deviations of the
  recorded prices exceed an i128; one reading further from the mean than 1.31 * 10^19 is enough, which is less
  than the width of the price table.
- `RemovalIsSound`: the hedge released is a share of the pool's whole reserve by the position's own
  liquidity, so the complete removal of any one position empties the reserve of the pool.
- `OneUnitMovesDown`: one unit of token A, which pays no fee, moves a pool of any liquidity down by a tick.
- `SaturatedSplitGains`: a position minted at tick 0 over [-512, 512), taken to tick -512 by sales, returns
  about two thirds more token A when it is removed in two parts, because the single removal clamps.
  `SplitRemovalGainsIff` is the exact condition: the parts together pay more than the ceiling of the two
  prices; `SaturatedPartGainsIff`: if one part clamps by itself, some other part pays anything at all.
- `CompleteBurnForfeits`: the complete removal of a position deletes what it is still owed in fees.
- `LateCallerThrows`: a caller can get the unique-key error instead of the existing workflow.
  `LateInsertThrowsIff`: without expiry this happens exactly when the row already existed when the caller
  took the lock, that is, when it appeared between its lookup and its lock. Every workflow that is returned
  is the one row.
- `ExpiryFreesAnotherLock`, `StaleDeleteFreesLock`: releasing reads the token and deletes the key in two
  commands, so it can delete another worker's lock. `DeletesOwnLockIff`: it deletes its own exactly when,
  since it read its token, no lease expired and no other worker deleted the key; the overdue delete of a
  worker whose lease ran out earlier is enough. Execution is entered at most once all the same
  (`StartedAtMostOnce`).
- `Engine.ExecuteWorkflow`: a step that times out asks for compensation while the workflow is RUNNING, which
  `canWorkflowCompensate` refuses; the refusal replaces the timeout error and the workflow ends FAILED, not
  compensated, although the log line announces automatic compensation.
- `ShortListNeverApproved`, `PendingCanBeApproved`: `propose_upgrade` compares the threshold with the length
  of the approver list, so a list with repeated addresses can make approval impossible; it is possible
  exactly when the list names at least threshold-many distinct addresses.
- `RepeatedBatchPaysTwice`, `BatchAgreesIffDistinct`, `PaidAtMostOnce`: a batch that names one grant twice
  pays it twice. A successful batch agrees with single claims exactly when its ids are pairwise distinct, and
  over any run every grant is paid at most once exactly when no successful batch repeats an id.
- `OrdersCanDisagree`, `BackfillAcceptedIff`: the migration orders rows by stored microseconds, the service
  by milliseconds and id. The service accepts the back-filled chain exactly when the two orders agree.
- `ArchivingMovesLatest`, `LatestStaysIff`: archived copies lose their microseconds, so archiving can change
  which entry is the latest. It does not exactly when a log row stays behind, or there was none, or the newest
  log row in database order is also the last in the service order. What verification reports never changes
  (`ArchivingChangesNothing`).
- `SameInstantNotCounted`: the sliding limiter counts distinct milliseconds, not requests.
- `SignedIntervalBound`, `NegativeDepositMakesRoom`: negative deposits raise the bridge's bound of twice the
  limit by what they gave back in the window before, and this bound is reached, so no multiple of the limit
  bounds the deposits. `TwiceTheLimitIsReached`: without negative deposits twice the limit is reached.
- `ZeroWindowHasNoBound`, `ZeroPeriodAdmitsAll`: a window or period of zero leaves the bridge limit and the
  breaker's transaction count without effect.
- `PeriodBound`: a breaker configured for zero transactions still lets the first one through.

## Model

| member | source | states |
|---|---|---|
| TickMath.TableFacts | Contracts/contracts/amm/src/pool.rs:35-69 | table ticks are 512 apart, prices rise strictly and every price step is a multiple of 512 |
| TickFormula.TableFollowsFormula | Contracts/contracts/amm/src/pool.rs:25-69 | the table is one at tick 0, and each step of 512 ticks multiplies it by 1.0001^256, short of it by about eight parts in 10^15 |
| TickMath.SqrtOnSegment | Contracts/contracts/amm/src/pool.rs:75-92 | interpolation is exact: price = segment start + slope * offset, at both ends of every segment |
| TickMath.SqrtStrictlyIncreasing | Contracts/contracts/amm/src/pool.rs:75-92 | tick to price is strictly increasing over all valid ticks |
| TickMath.FloorTickUnique | Contracts/contracts/amm/src/pool.rs:95-110 | for any price at or above the table's start, a tick is the floor tick if and only if its half-open price interval holds the price |
| TickMath.TickRoundTrip | Contracts/contracts/amm/src/pool.rs:75-110 | tick to price to tick is the identity on every valid tick |
| TickMath.SegmentFraction | Contracts/contracts/amm/src/pool.rs:99-103 | the interpolated fraction of a table segment is the floor tick |
| TickMath.SqrtPriceToTick | Contracts/contracts/amm/src/pool.rs:95-110 | the table loop returns the floor tick of every price, clamped to the tick range |
| LiquidityMath.TokenAWithin | Contracts/contracts/amm/src/pool.rs:121-182 | token A for at most the liquidity bought by an amount never exceeds that amount, through four floors and any clamping |
| LiquidityMath.TokenBWithin | Contracts/contracts/amm/src/pool.rs:121-182 | token B for at most the liquidity bought by an amount never exceeds that amount and never overflows |
| LiquidityMath.AmountsWithinDesired | Contracts/contracts/amm/src/pool.rs:121-182 | for all desired amounts, every price and every lower < upper, the amounts pulled for the computed liquidity are non-negative and at most the desired ones |
| LiquidityMath.TokenANearlyAll | Contracts/contracts/amm/src/pool.rs:121-182 | for every amount and price: the amount buys the most liquidity any amount can buy, because a product clamps, or all of it is used but a rest worth less than two units of 2^64 at the price (four units at table prices) |
| LiquidityMath.TokenBNearlyAll | Contracts/contracts/amm/src/pool.rs:121-182 | the computed liquidity uses all of a binding token B but a rest worth less than the price range (one unit for ranges up to 2^64) |
| LiquidityMath.AmountsNearlyAll | Contracts/contracts/amm/src/pool.rs:151-182 | the computed liquidity is the most affordable: one of the tokens the price calls for is used up but for its rest, or buys no more liquidity in any amount |
| LiquidityMath.TokenAClamped | Contracts/contracts/amm/src/pool.rs:121-149 | for every liquidity, clamping both products is the same as clamping the exact conversion at a ceiling that depends on the two prices only |
| SplitBurn.SplitBurnGainsIff | Contracts/contracts/amm/src/pool.rs:121-149 | any list of parts yields at most the token B of their sum, and more token A if and only if it yields more than the ceiling of the prices |
| SplitBurn.SplitBurnNeverGains | Contracts/contracts/amm/src/pool.rs:121-149 | without saturation any list of parts yields at most what their sum yields, on both tokens |
| SplitBurn.SaturatedPartGainsIff | Contracts/contracts/amm/src/pool.rs:121-149 | if one part saturates, the gain over the single conversion is exactly what the other parts yield |
| SwapMath.StepDownLandsOnTarget | Contracts/contracts/amm/src/pool.rs:214-241 | from every price above the table's start a falling step ends exactly on its target, whatever the amount |
| SwapMath.StepUpStaysInside | Contracts/contracts/amm/src/pool.rs:242-255 | a rising step never overflows and ends between the current price and the target |
| SwapMath.StepTakesAtMostOffered | Contracts/contracts/amm/src/pool.rs:199-273 | fee is the floored share; input plus fee never exceeds the amount offered; nothing is negative |
| SwapMath.StepDownTradesRange | Contracts/contracts/amm/src/pool.rs:214-241 | whatever is offered, a falling step takes the smaller of the offer and the range's token A and pays the token B the liquidity holds between the two prices, with that product clamped at i128::MAX where converting a position would abort |
| SwapMath.StepUpMovesByInput | Contracts/contracts/amm/src/pool.rs:242-255 | a rising step stops short of its target if and only if less is offered than the range's token B, its product clamped at i128::MAX, and then takes all of it and moves the price by exactly what it buys, rounded down |
| SwapMath.StepUpPaysNearlyIdeal | Contracts/contracts/amm/src/pool.rs:242-273 | the payout is the ceiling of the two prices, because a product clamps, or falls short of the exact rational amount by less than one unit and 2^64 over the new price (three units at table prices) |
| SwapMath.StepUpPaysAtMostIdeal | Contracts/contracts/amm/src/pool.rs:242-273 | a rising step pays at most the exact rational amount for the price move and takes at most the range's token B |
| FeeGrowth.IncrementBelowFee | Contracts/contracts/amm/src/fees.rs:164-175 | the increment times the liquidity is the scaled fee less a remainder below the liquidity |
| FeeGrowth.BoundedKept | Contracts/contracts/amm/src/pool.rs:344-349 | every swap keeps each tick's outside value between zero and the global accumulator |
| FeeGrowth.InsideFits | Contracts/contracts/amm/src/pool.rs:320-342 | in bounded accounting the plain subtractions of fee_growth_inside never overflow |
| FeeGrowth.InsideAdditive | Contracts/contracts/amm/src/pool.rs:320-342 | inside growth is additive over adjacent ranges, for any current tick |
| FeeGrowth.SwapRaisesInside | Contracts/contracts/amm/src/pool.rs:320-349 | crossing at most one tick and adding an increment raises inside growth by it exactly for ranges holding the final tick |
| DynamicFee.Isqrt | Contracts/contracts/amm/src/fees.rs:84-95 | terminates with r*r <= n < (r+1)*(r+1) for every positive n, zero otherwise, and aborts exactly at i128::MAX |
| DynamicFee.FloorSqrtUnique | Contracts/contracts/amm/src/fees.rs:84-95 | the square interval determines the root, so the loop equals the counting definition |
| DynamicFee.NewtonAboveRoot | Contracts/contracts/amm/src/fees.rs:84-95 | a Newton step from any positive guess never falls below the root |
| DynamicFee.ReadingsExact | Contracts/contracts/amm/src/fees.rs:118-125 | from the 24th period on the readings are those of the stored periods of the window, each once |
| DynamicFee.FeeExact | Contracts/contracts/amm/src/fees.rs:105-153 | for non-negative readings: the base below two readings or at mean zero, else the base plus a tenth of the volatility in basis points, at most 50; refused exactly when the sum or the squared deviations overflow |
| DynamicFee.StrayReadingRefused | Contracts/contracts/amm/src/fees.rs:105-153 | one reading whose squared distance from the mean overflows makes the update abort |
| DynamicFee.CollectSamples | Contracts/contracts/amm/src/fees.rs:118-125 | the buffer holds exactly the stored readings of the last periods, newest first, and the checked sum is theirs |
| DynamicFee.SumDeviations | Contracts/contracts/amm/src/fees.rs:138-142 | the loop is the checked sum of squared deviations, aborting exactly when that does |
| DynamicFee.ComputeDynamicFee | Contracts/contracts/amm/src/fees.rs:105-153 | the fee is the specified function of the readings and lies in [base, base+50] |
| DynamicFee.FeeRisesWithDeviation | Contracts/contracts/amm/src/fees.rs:105-153 | for up to 24 non-negative readings, one that strays by e from the mean forces at least the premium that e alone accounts for, up to the cap |
| DynamicFee.CastNeverTruncates | Contracts/contracts/amm/src/fees.rs:105-153 | up to 24 non-negative readings never make a volatility that the cast to 32 bits truncates |
| DynamicFee.FeeBoundedByDeviation | Contracts/contracts/amm/src/fees.rs:105-153 | if all readings lie within d of the mean, the premium is at most d*10000/mean over the divisor |
| ILHedge.QuotientAtMostScale | Contracts/contracts/amm/src/il_hedge.rs:65-95 | integer AM-GM: 2s*S/(S+s*s/S) is at most S despite floors and clamping |
| ILHedge.EstimateInRange | Contracts/contracts/amm/src/il_hedge.rs:65-95 | for every range and price the estimate never aborts and lies in [-10000, 0] basis points |
| ILHedge.MidTickIsMiddle | Contracts/contracts/amm/src/il_hedge.rs:65-95 | the entry tick is the middle of the range, rounded toward zero |
| ILHedge.EstimateTracksLoss | Contracts/contracts/amm/src/il_hedge.rs:65-95 | for every range and price the estimate is less than one basis point above and two below the exact loss (s-1)^2/(1+s^2) at the scaled price ratio s, saturated or not |
| ILHedge.EstimateZeroAtEntry | Contracts/contracts/amm/src/il_hedge.rs:65-95 | the estimate is zero at the position's mid-tick price |
| ILHedge.ReserveTaken | Contracts/contracts/amm/src/il_hedge.rs:106-117 | no reserve at the mid-tick price; never more than a twentieth of the amount, and exactly its floor once the estimated loss reaches the threshold |
| ILHedge.ReleaseWithinReserve | Contracts/contracts/amm/src/il_hedge.rs:123-134 | a release is the floored proportional share, lies in [0, reserve], and a complete removal releases all of it |
| ILHedge.BurnConservesReserve | Contracts/contracts/amm/src/il_hedge.rs:123-134 | over any list of partial burns released plus remaining equals the reserve; a complete burn leaves zero |
| AmmPool.StepMovesTick | Contracts/contracts/amm/src/lib.rs:510-551 | from any price, the price after a step lies in the starting tick or in the target tick |
| AmmPool.SwapStepsOneTick | Contracts/contracts/amm/src/lib.rs:510-556 | every successful swap keeps the pool invariant (tick in sync with price), moves at most one tick in the trade's direction, and changes the accounting by one optional crossing and one increment |
| AmmPool.SwapFeesGoToEndTick | Contracts/contracts/amm/src/lib.rs:510-556 | inside growth of every range rises by exactly the increment if it holds the final tick and by zero otherwise, crossing or not |
| SwapExact.StepExact | Contracts/contracts/amm/src/pool.rs:199-273 | a step aborts exactly when the fee product overflows, charges the floored share, and makes the falling or rising trade in closed form |
| SwapExact.SwapSucceedsIff | Contracts/contracts/amm/src/lib.rs:475-577 | for every valid pool: a swap succeeds if and only if something is offered, there is liquidity, the minimum is met and the sums fit; it charges amount * dynamic_fee_bps / 10000, and its input, output, price, volume and growth are those of the pool's price, liquidity and tick in closed form |
| SwapExact.TradeDirection | Contracts/contracts/amm/src/lib.rs:510-530 | at table prices a sale never raises and a purchase never lowers the price; exactly outside the table it can move back toward it |
| AmmPool.OneUnitMovesDown | Contracts/contracts/amm/src/lib.rs:475-577 | from a tick boundary a sale of one unit always succeeds, moves any pool down exactly one tick, and leaves the growth inside every range unchanged |
| AmmPool.CreditBelowGrowth | Contracts/contracts/amm/src/position.rs:155-174 | a credit is liquidity times the growth it is for, never more and less than one unit short |
| AmmPool.AccruingOftenNeverGains | Contracts/contracts/amm/src/position.rs:155-174 | accruing at any increasing checkpoints credits at most what accruing once at the end does |
| LiquidityExact.AccrueCredits | Contracts/contracts/amm/src/position.rs:155-174 | accruing credits both tokens with exactly what their growth is worth, moves both checkpoints and changes nothing else |
| FeeRun.SwapKeepsSound | Contracts/contracts/amm/src/lib.rs:533-556 | a swap raises the positions' total claim by at most the fee it paid |
| FeeRun.AccrualKeepsSound | Contracts/contracts/amm/src/position.rs:155-174 | accruing or collecting keeps owed plus paid-out plus unaccrued claims within the fees paid |
| FeeRun.MintKeepsSound | Contracts/contracts/amm/src/lib.rs:264-337 | a deposit adds no claim on past fees |
| FeeRun.BurnKeepsSound | Contracts/contracts/amm/src/lib.rs:360-422 | a removal, partial or complete, raises no claim on past fees |
| FeeRun.FeesCreditedAtMostPaid | Contracts/contracts/amm/src/lib.rs:248-577 | over any run of swaps, accruals, collections, deposits and removals, if covering positions never exceed pool liquidity at a swap, fees owed, paid out and deleted with their positions are together at most the fees paid, per token |
| FeeRun.CompleteBurnForfeits | Contracts/contracts/amm/src/lib.rs:360-422 | a complete removal deletes all fees credited to the position, paying none of them |
| FeeRun.GrowthOverRun | Contracts/contracts/amm/src/lib.rs:510-556 | over any run, inside growth equals the sum of the increments of swaps that ended in the range, and the tick moves by at most the number of events |
| AmmLiquidity.DepositIsSound | Contracts/contracts/amm/src/lib.rs:264-337 | a deposit keeps the pool invariant, respects minimum and desired amounts, mints the computed liquidity and adds it exactly when in range, starts with nothing to accrue, reserves at most a twentieth and nothing at the mid-tick price |
| LiquidityExact.NoDepositWithout | Contracts/contracts/amm/src/lib.rs:264-298 | a deposit that succeeds has a proper range, desires something and buys at least one unit |
| LiquidityExact.DepositSucceedsIff | Contracts/contracts/amm/src/lib.rs:264-337 | such a deposit succeeds if and only if both minima are met and the sums fit; its position, amounts, liquidity and the twentieth put into each reserve are exact |
| AmmLiquidity.RemovalIsSound | Contracts/contracts/amm/src/lib.rs:360-422 | a removal keeps the pool invariant; the hedge paid is exactly the drop of a never negative reserve; a complete burn empties it |
| LiquidityExact.RemovalSucceedsIff | Contracts/contracts/amm/src/lib.rs:360-422 | a removal succeeds if and only if its fees accrue, its part converts, the principal meets both minima and the sums fit; payout, reserves, liquidity and position are exact |
| AmmLiquidity.DepositThenRemoval | Contracts/contracts/amm/src/lib.rs:264-422 | burning a fresh position restores the pool except for its reserve and returns exactly the amounts pulled plus the whole reserve |
| AmmLiquidity.PartsPayPrincipal | Contracts/contracts/amm/src/lib.rs:371-403 | successive removals pay exactly the separately converted principals |
| AmmLiquidity.PartsConserveReserve | Contracts/contracts/amm/src/lib.rs:371-403 | over successive removals hedge paid plus reserve is constant, and burning everything leaves zero |
| AmmLiquidity.SplitRemovalNeverGains | Contracts/contracts/amm/src/lib.rs:371-403 | without saturation, any number of partial removals returns at most the principal of one removal, with the reserve conserved |
| AmmLiquidity.SplitRemovalGainsIff | Contracts/contracts/amm/src/lib.rs:371-403 | in general partial removals never return more token B than one removal, and return more token A if and only if they pay more than the ceiling of the two prices |
| SplitRun.SalesMoveDown | Contracts/contracts/amm/src/lib.rs:475-577 | n one-unit sales move a pool down n ticks and change nothing else a position depends on |
| SplitRun.SaturatedSplitGains | Contracts/contracts/amm/src/lib.rs:248-430 | a run from a fresh pool through a deposit and 512 sales after which removing the minted position in two parts returns 5966827064618374584 more token A than removing it at once |
| Amm.PoolContract.CreatePool | Contracts/contracts/amm/src/lib.rs:196-244 | unsupported tiers and non-positive prices are refused; otherwise a valid empty pool |
| Amm.PoolContract.constructor | Contracts/contracts/amm/src/lib.rs:221-235 | the stored pool is empty, at the floor tick of its price, with fee equal to its tier |
| Amm.PoolContract.CrossTick | Contracts/contracts/amm/src/pool.rs:344-349 | flips both stored outside values of one tick around the globals and nothing else |
| Amm.PoolContract.RecordPriceSample | Contracts/contracts/amm/src/fees.rs:68-73 | stores the positive current price for the period |
| Amm.PoolContract.Swap | Contracts/contracts/amm/src/lib.rs:475-577 | refines the swap specification and charges the floored dynamic fee, errors change nothing, positions untouched, one tick at most, the price before the swap recorded for the period |
| Amm.PoolContract.UpdateDynamicFee | Contracts/contracts/amm/src/lib.rs:581-597 | stores the specified fee; in every reachable state it lies in [fee_tier, fee_tier+50] |
| Amm.PoolContract.AddLiquidity | Contracts/contracts/amm/src/lib.rs:248-345 | refines the deposit specification under a fresh position id; pulls at most the desired amounts; errors change nothing |
| Amm.PoolContract.RemoveLiquidity | Contracts/contracts/amm/src/lib.rs:349-430 | refines the removal specification for the owner only; the position is deleted exactly when its liquidity is used up |
| Amm.PoolContract.CollectFees | Contracts/contracts/amm/src/lib.rs:434-471 | pays the owner exactly what accruing leaves owed and clears it, touching no other position |
| WorkflowStart.StepKeepsInv | Backend/src/workflow/services/workflow-execution.service.ts:56-156 | every database or Redis command, error, crash or expiry keeps: at most one row, execution entered at most once and by its creator, every row in hand is that row |
| WorkflowStart.StartedAtMostOnce | Backend/src/workflow/services/workflow-execution.service.ts:56-156 | under every interleaving of any number of callers with one key, with errors, crashes and expiry, at most one row, at most one entry into execution, and every returned workflow is that row |
| WorkflowStart.StepKeepsExclusive | Backend/src/workflow/services/workflow-execution.service.ts:538-590 | every action but expiry keeps: whoever is between acquiring and releasing owns the lock |
| WorkflowStart.LockIsExclusive | Backend/src/workflow/services/workflow-execution.service.ts:538-590 | if no lease expires, at most one worker holds the lock and a release deletes only its own lock |
| WorkflowStart.DeletesOwnLockIff | Backend/src/workflow/services/workflow-execution.service.ts:552-569 | in any run, a worker about to delete the key owns the lock if and only if no lease expired and no other worker deleted the key since it read its token |
| WorkflowStart.ExpiryFreesAnotherLock | Backend/src/workflow/services/workflow-execution.service.ts:552-569 | a concrete run with an expiry in which one worker's delete frees another's lock |
| WorkflowStart.StaleDeleteFreesLock | Backend/src/workflow/services/workflow-execution.service.ts:552-569 | a concrete run in which a lock is freed by an overdue delete although no lease expired since its holder read its token |
| WorkflowStart.LateInsertThrowsIff | Backend/src/workflow/services/workflow-execution.service.ts:56-156 | without expiry, a worker's insert throws on the unique key if and only if the row existed when that worker took the lock |
| WorkflowStart.LateCallerThrows | Backend/src/workflow/services/workflow-execution.service.ts:56-156 | a concrete run without expiry in which a caller throws although the row exists and another caller returned it |
| WorkflowStart.OutcomeDecided | Backend/src/workflow/services/workflow-execution.service.ts:56-156 | a call's outcome is decided by finding or polling the row, reading it back, giving up, failing, an execution that threw or an insert over a row, and by nothing else, and then stays |
| WorkflowStart.FailedExecutionThrows | Backend/src/workflow/services/workflow-execution.service.ts:142-156 | a caller whose execution threw never returns a workflow |
| WorkflowStart.ReturnedHow | Backend/src/workflow/services/workflow-execution.service.ts:56-156 | every returned workflow was found by its caller or executed by it to the end |
| WorkflowStart.LockReleased | Backend/src/workflow/services/workflow-execution.service.ts:113-156 | a call that is over leaves its lock behind only if it crashed or taking or releasing the lock ended in an error |
| WorkflowTables.WorkflowTableShape | Backend/src/workflow/services/workflow-state-machine.service.ts:9-30 | exactly which states lead to each state, which one is final, and that COMPENSATING is reachable from RUNNING although a RUNNING workflow may not be compensated |
| WorkflowTables.StepTableShape | Backend/src/workflow/services/workflow-state-machine.service.ts:32-48 | exactly which step states lead to each state and which one is final |
| WorkflowExecution.RunStepBound | Backend/src/workflow/services/workflow-execution.service.ts:241-367 | from any retry count the attempts stay within max(1, maxRetries), and success means a later allowed attempt succeeds after throws only |
| WorkflowExecution.StepCompletesIff | Backend/src/workflow/services/workflow-execution.service.ts:241-367 | a fresh step completes if and only if some allowed attempt succeeds and all before it threw; it stops after the first attempt that succeeds or times out, or after the last allowed one |
| WorkflowExecution.CallsBounded | Backend/src/workflow/services/workflow-state-machine.service.ts:134-143 | after a run no step was executed more than max(1, maxRetries) times |
| WorkflowExecution.Engine.constructor | Backend/src/workflow/services/workflow-execution.service.ts:113-142 | a fresh workflow is PENDING with PENDING steps and a lawful save history |
| WorkflowExecution.Engine.ExecuteStep | Backend/src/workflow/services/workflow-execution.service.ts:241-367 | the recursive retry equals the trial specification, retry count included, with maxRetries - retryCount decreasing; only this step's row changes; every save is lawful |
| WorkflowExecution.Engine.ExecuteSteps | Backend/src/workflow/services/workflow-execution.service.ts:216-236 | runs the steps in order up to the first that does not complete; earlier ones COMPLETED, later ones untouched |
| WorkflowExecution.Engine.ExecuteWorkflow | Backend/src/workflow/services/workflow-execution.service.ts:161-211 | every saved state has a COMPLETED prefix, at most one step in progress or FAILED and a PENDING suffix; every write is a table edge; COMPLETED exactly when every step completes; calls bounded per step |
| Compensation.OrderIsReverse | Backend/src/workflow/services/compensation.service.ts:59-64 | for any load order, the steps visited are exactly the COMPLETED ones that require compensation, in strictly decreasing stepIndex |
| Compensation.RollBackEffect | Backend/src/workflow/services/compensation.service.ts:59-90 | on success every eligible step is COMPENSATED; on failure a prefix of the order is, its last one FAILED; no other row changes |
| Compensation.VisitedAreHighest | Backend/src/workflow/services/compensation.service.ts:59-90 | the steps reached are the highest-index part of the eligible steps |
| Compensation.CompensationService.CompensateStep | Backend/src/workflow/services/compensation.service.ts:95-139 | goes through COMPENSATING to COMPENSATED or FAILED along table edges, changing one row |
| Compensation.CompensationService.CompensateWorkflow | Backend/src/workflow/services/compensation.service.ts:25-90 | refused without change unless compensatable; otherwise the loop equals the rollback specification and both workflow writes are table edges |
| Compensation.CallUsesUpSteps | Backend/src/workflow/services/compensation.service.ts:25-90 | a call visits only COMPLETED steps, leaves none of them COMPLETED and changes no step that was not |
| Compensation.NeverCompensatedTwice | Backend/src/workflow/services/compensation.service.ts:25-139 | over any sequence of calls with any failures no step is compensated twice |
| Saga.SagaRollsBack | Backend/src/workflow/services/compensation.service.ts:25-139 | after any forward run that stopped at step k, compensation visits exactly the steps below k that have a compensate function, in reverse; the final state and mark of every step, whether or not a compensation fails |
| Governance.StepKeepsInv | Contracts/shared/src/governance.rs:120-341 | every call keeps the counting invariant for every proposal |
| Governance.CountIsDistinctApprovers | Contracts/shared/src/governance.rs:120-341 | in every reachable state the count is the number of distinct recorded approvers, all listed; Pending is below, Approved and Executed exactly at the threshold |
| Governance.StepOnProposal | Contracts/shared/src/governance.rs:243-341 | a call never changes a proposal's terms, and only an execute at or after the timelock on an approved proposal makes it Executed |
| Governance.ExecutedIsFinal | Contracts/shared/src/governance.rs:243-341 | an executed proposal never changes again under any further calls |
| Governance.ApprovalHasCall | Contracts/shared/src/governance.rs:183-240 | every recorded approval was made by a permitted approve call of that address |
| Governance.ExecutedHasCall | Contracts/shared/src/governance.rs:243-281 | every executed proposal has an execute call, at or after its timelock, made while it was Approved at its threshold |
| Governance.ExecutedWasApproved | Contracts/shared/src/governance.rs:183-281 | every executed proposal was approved, before its execution, by threshold-many distinct listed addresses, each through its own call |
| GovernanceExact.ProposalHasCall | Contracts/shared/src/governance.rs:120-180 | every proposal of a run was made by a permitted propose call with its proposer, threshold and approvers, created at the call's time and executable its delay later |
| GovernanceExact.ExecutedAfterDelay | Contracts/shared/src/governance.rs:120-281 | every executed proposal was executed at least its delay after it was proposed, by a later call |
| GovernanceExact.ProposeSucceedsIff | Contracts/shared/src/governance.rs:120-180 | exactly when a proposal is accepted |
| GovernanceExact.ApproveSucceedsIff | Contracts/shared/src/governance.rs:183-240 | exactly when an approval is accepted, and that it adds exactly that approver |
| GovernanceExact.OtherSucceedsIff | Contracts/shared/src/governance.rs:243-341 | exactly when an execution, a rejection and a cancellation are accepted |
| GovernanceExact.StatusMoves | Contracts/shared/src/governance.rs:120-341 | the status every call gives every proposal, from its status and its number of distinct approvers |
| Governance.PendingHasApproverLeft | Contracts/shared/src/governance.rs:120-240 | a pending proposal whose list names enough distinct addresses has a listed approver left |
| Governance.DistinctApproversNeverStuck | Contracts/shared/src/governance.rs:120-240 | with a duplicate-free list a pending proposal can always receive another approval |
| Governance.ShortListNeverApproved | Contracts/shared/src/governance.rs:130-180 | a proposal whose list names fewer distinct addresses than its threshold is never approved or executed in any run |
| Governance.PendingCanBeApproved | Contracts/shared/src/governance.rs:183-240 | otherwise every reachable pending proposal can be brought to Approved by further calls |
| Governance.GovernanceManager.ProposeUpgrade | Contracts/shared/src/governance.rs:120-180 | refines the specification under a fresh id with its exact error and keeps the invariant |
| Governance.GovernanceManager.ApproveProposal | Contracts/shared/src/governance.rs:183-240 | refines the specification with its exact error and keeps the invariant |
| Governance.GovernanceManager.ExecuteProposal | Contracts/shared/src/governance.rs:243-281 | refines the specification with its exact error and keeps the invariant |
| Governance.GovernanceManager.RejectProposal | Contracts/shared/src/governance.rs:284-311 | refines the specification with its exact error and keeps the invariant |
| Governance.GovernanceManager.CancelProposal | Contracts/shared/src/governance.rs:314-341 | refines the specification with its exact error and keeps the invariant; an executed proposal cannot be cancelled |
| Acl.CheckRoleExact | Contracts/shared/src/acl.rs:180-205 | from any depth: true exactly when a role within the remaining links carries the permission, abort exactly when none does and the chain is longer, false otherwise |
| Acl.CheckRoleIsReachability | Contracts/shared/src/acl.rs:180-205 | on any parent graph, cyclic or not, an answer agrees with reachability at any distance |
| Acl.SearchIsReachability | Contracts/shared/src/acl.rs:150-178 | whenever the search returns, true means some role of the user reaches the permission and false means none does |
| Acl.AbortsExactly | Contracts/shared/src/acl.rs:150-205 | the search aborts if and only if some role's own search does and all roles before it answer false |
| Acl.ShortChainsNeverAbort | Contracts/shared/src/acl.rs:150-205 | with chains of at most ten links it never aborts |
| Acl.AbortsBeyondTen | Contracts/shared/src/acl.rs:180-205 | one role's search aborts if and only if it and its first ten ancestors lack the permission and there is an eleventh |
| Acl.WithPermissionExact | Contracts/shared/src/acl.rs:84-104 | an assignment gives exactly that permission to exactly that role |
| Acl.WithRoleExact | Contracts/shared/src/acl.rs:62-82 | an assignment adds exactly that role, behind those already held |
| Acl.AssignPermissionKeepsYes | Contracts/shared/src/acl.rs:84-104 | adding a permission to any role keeps every true answer, for any role list |
| Acl.AssignRoleKeepsYes | Contracts/shared/src/acl.rs:62-82 | adding roles at the end keeps every true answer |
| Acl.AccessControl.AssignRole | Contracts/shared/src/acl.rs:62-82 | appends the role once; every user's true answers stay true |
| Acl.AccessControl.AssignPermission | Contracts/shared/src/acl.rs:84-104 | appends the permission once; every true answer stays true |
| Acl.AccessControl.SetParentRole | Contracts/shared/src/acl.rs:116-138 | aborts without change exactly when child and parent are the same, otherwise sets one link |
| Acl.AccessControl.HasPermission | Contracts/shared/src/acl.rs:150-178 | the loop equals the search and its answer agrees with reachability |
| Vesting.VestedInRange | Contracts/contracts/academy/src/vesting.rs:527-559 | the vested amount lies in [0, amount] |
| Vesting.VestedShape | Contracts/contracts/academy/src/vesting.rs:527-559 | zero before the cliff, everything from the end on, and the linear share of the time since the cliff in between, rounded down; no abort while times and product fit |
| Vesting.VestedMonotone | Contracts/contracts/academy/src/vesting.rs:527-559 | the vested amount never decreases with time |
| VestingExact.ClaimSucceedsIff | Contracts/contracts/academy/src/vesting.rs:128-155 | a claim succeeds if and only if the grant exists, the caller is its beneficiary, it is open and past its cliff with at least one unit vested, the token is set and the balance covers it; it pays exactly the floored linear share, everything from the end on |
| VestingExact.BatchSucceedsIff | Contracts/contracts/academy/src/vesting.rs:368-437 | a non-empty batch succeeds if and only if it names at most 25 grants, all claimable by the caller, and the balance covers their shares, which it pays |
| VestingExact.GrantSucceedsIff | Contracts/contracts/academy/src/vesting.rs:206-304 | exactly when a grant is accepted, and that it stores the schedule asked for under a new id |
| VestingExact.RevokeSucceedsIff | Contracts/contracts/academy/src/vesting.rs:440-507 | exactly when a revocation is accepted, and that it marks the grant and notes the time |
| VestingExact.GrantHasCall | Contracts/contracts/academy/src/vesting.rs:206-304 | every grant of a run comes from an unpaused grant call of the admin with exactly its terms |
| VestingExact.RevokedHasCall | Contracts/contracts/academy/src/vesting.rs:440-507 | every revoked grant was revoked by the admin at the noted time, at least an hour's delay after its start |
| VestingExact.PaymentHasCall | Contracts/contracts/academy/src/vesting.rs:307-437 | every payment of a run was made by a claim or batch call of the grant's beneficiary and is exactly the grant's share at that time |
| Vesting.ClaimEachPaysBill | Contracts/contracts/academy/src/vesting.rs:307-365 | single claims in sequence succeed exactly when each grant is claimable and the balance covers the sum, and then mark exactly those grants |
| Vesting.GatherAddsBill | Contracts/contracts/academy/src/vesting.rs:396-403 | the first batch loop succeeds exactly when each grant is claimable and the sum fits, and collects that sum |
| Vesting.SettleMarks | Contracts/contracts/academy/src/vesting.rs:409-434 | the second loop marks exactly the listed grants and pays exactly the collected amounts |
| Vesting.BatchEqualsSequence | Contracts/contracts/academy/src/vesting.rs:368-437 | on distinct ids a batch succeeds if and only if single claims at the same time do, with the same schedules, balance and total |
| Vesting.BatchAgreesIffDistinct | Contracts/contracts/academy/src/vesting.rs:368-437 | a successful batch agrees with single claims if and only if no id is repeated |
| Vesting.RepeatedClaimFails | Contracts/contracts/academy/src/vesting.rs:307-365 | single claims over a list with a repeated id always fail |
| Vesting.RepeatedBatchPaysTwice | Contracts/contracts/academy/src/vesting.rs:368-437 | a concrete batch that pays one grant twice |
| Vesting.PayMany | Contracts/contracts/academy/src/vesting.rs:409-434 | settling a batch, with or without repeated ids, keeps payments backed, revocations untouched and balance plus payments conserved |
| Vesting.RunKeepsInv | Contracts/contracts/academy/src/vesting.rs:206-507 | over any run, batches with repeated ids included, every payment is at most its grant's amount and marked, no grant is both claimed and revoked, and deposits equal payments plus balance |
| Vesting.BatchPaysOnceIff | Contracts/contracts/academy/src/vesting.rs:368-437 | a successful batch pays no grant twice, nor one paid before, if and only if its ids are distinct |
| Vesting.PaidAtMostOnce | Contracts/contracts/academy/src/vesting.rs:307-507 | over any run each grant is paid at most once if and only if no successful batch repeats an id |
| Vesting.RevokedNeverPaid | Contracts/contracts/academy/src/vesting.rs:440-507 | a revoked grant stays revoked and is never paid, before or after, over any run, batches with repeated ids included |
| VestingContract.AcademyVesting.constructor | Contracts/contracts/academy/src/vesting.rs:160-203 | the initial contract satisfies the payment invariant |
| VestingContract.AcademyVesting.GrantVesting | Contracts/contracts/academy/src/vesting.rs:206-304 | refines the grant specification; errors change nothing |
| VestingContract.AcademyVesting.Claim | Contracts/contracts/academy/src/vesting.rs:307-365 | refines the claim specification; errors change nothing |
| VestingContract.AcademyVesting.GatherUpdates | Contracts/contracts/academy/src/vesting.rs:396-403 | the first loop equals the recursive specification, including which error it stops with |
| VestingContract.AcademyVesting.BatchClaimGrants | Contracts/contracts/academy/src/vesting.rs:368-437 | both loops equal the specification, agree with single claims on distinct ids, and on failure change nothing |
| VestingContract.AcademyVesting.RevokeGrant | Contracts/contracts/academy/src/vesting.rs:440-507 | refines the revoke specification; errors change nothing |
| AuditChain.VerifiesIffChain | Backend/src/audit/audit.service.ts:97-142 | verification reports no failure if and only if every entry is the link of its content to its predecessor |
| AuditChain.ChainSplit | Backend/src/audit/audit.service.ts:97-142 | a log is a chain if and only if any front part is and the rest continues from its last hash |
| AuditChain.DeletionDetected | Backend/src/audit/audit.service.ts:97-142 | deleting a non-last entry of a chain passes verification if and only if its hash equals its predecessor's |
| AuditTamper.ReasonsExact | Backend/src/audit/audit.service.ts:97-142 | which of the three failures is reported for an entry, from the digest of previous hash, action, actor and millisecond and the signature of action, actor, entity, metadata, millisecond, previous hash and digest |
| AuditTamper.AlterationPassesIff | Backend/src/audit/audit.service.ts:221-260 | an entry whose content is altered passes if and only if digest and signature agree on the fields of both contents |
| AuditTamper.AlterationReported | Backend/src/audit/audit.service.ts:97-142 | an alteration of one entry of a verified log is reported for that entry and no other |
| AuditTamper.AlterationDetected | Backend/src/audit/audit.service.ts:97-260 | with a binding signature, entries with one signature in any two verified states of the tables record the same action, actor, entity, metadata, millisecond, hash and previous hash |
| AuditTables.InSplit | Backend/src/audit/audit.service.ts:145-155 | exactly the rows older than the cutoff are archived |
| AuditChain.WholeMillisecondsAgree | Backend/src/audit/audit.service.ts:210-219 | on whole-millisecond timestamps the database order implies the service order |
| AuditChain.LatestIsLast | Backend/src/audit/audit.service.ts:180-208 | where the orders agree the latest entry is the last ordered entry |
| AuditTables.ArchivingChangesNothing | Backend/src/audit/audit.service.ts:145-178 | archiving at any cutoff leaves what the service reads in order and the failures verification reports unchanged, whether or not the two orders agree; where they agree, the latest entry too |
| AuditTables.ArchiveKeepsSplit | Backend/src/audit/audit.service.ts:145-178 | a whole-millisecond cutoff keeps archived rows at least a millisecond older than log rows |
| AuditTables.LatestStaysIff | Backend/src/audit/audit.service.ts:145-208 | with such a cutoff the latest entry is unchanged if and only if a log row stays, or there was none, or the newest log row in database order is also last in the service order |
| AuditTables.ArchivingMovesLatest | Backend/src/audit/audit.service.ts:145-208 | two concrete rows of one millisecond whose archiving changes the latest entry |
| AuditLog.AppendExtends | Backend/src/audit/audit.service.ts:28-48 | appending an entry that sorts last extends the ordered entries by exactly it |
| AuditLog.LoggedChainVerifies | Backend/src/audit/audit.service.ts:28-178 | any run of in-order appends and archivings verifies as valid |
| AuditLog.ChainFixesOrder | Backend/src/audit/audit.service.ts:97-142 | with distinct non-empty hashes only one order of the entries verifies |
| AuditLog.AppendVerifiesIff | Backend/src/audit/audit.service.ts:28-48 | with distinct hashes, an append keeps the log valid if and only if the new entry sorts after all others |
| AuditLog.BackfillIsChain | Backend/src/database/migrations/1781827200000-AddAuditIntegrityChain.ts:32-62 | the back-fill links its rows into a chain, from any starting hash |
| AuditLog.MigratedSorted | Backend/src/database/migrations/1781827200000-AddAuditIntegrityChain.ts:32-62 | the migrated table is in service order if and only if both orders agree on its rows |
| AuditLog.BackfillAccepted | Backend/src/database/migrations/1781827200000-AddAuditIntegrityChain.ts:32-62 | where the orders agree the service accepts the back-filled chain |
| AuditLog.BackfillAcceptedIff | Backend/src/database/migrations/1781827200000-AddAuditIntegrityChain.ts:32-62 | with distinct hashes the service accepts it if and only if the orders agree |
| AuditLog.OrdersCanDisagree | Backend/src/audit/audit.service.ts:210-219 | two concrete rows of one millisecond on which the orders disagree |
| AuditLog.RowDeletionDetected | Backend/src/audit/audit.service.ts:97-208 | removing the row of a non-last entry from either table passes verification if and only if its hash equals its predecessor's, whether or not the two orders agree |
| AuditLog.AuditService.Append | Backend/src/audit/audit.service.ts:28-48 | links to the latest hash and keeps a valid log valid when the entry sorts last |
| AuditLog.AuditService.VerifyAuditChain | Backend/src/audit/audit.service.ts:97-142 | the loop reports exactly the specified failures; valid if and only if the ordered entries are a chain; every row is counted |
| AuditLog.AuditService.ArchiveOldLogs | Backend/src/audit/audit.service.ts:145-178 | moves exactly the old rows, as the service reads them; ordered entries and failures as read are unchanged, and the latest entry where the orders agree |
| AuditLog.MigrateUp | Backend/src/database/migrations/1781827200000-AddAuditIntegrityChain.ts:32-62 | the loop equals the back-fill over the database order, accepted where the orders agree |
| SlidingWindow.TrimmedIsWindow | Backend/src/auth/services/rate-limit.service.ts:8-61 | after trimming the stored set is exactly the admitted instants of the window: key expiry never drops a live entry |
| SlidingWindow.RunTracks | Backend/src/auth/services/rate-limit.service.ts:8-61 | over any run with a non-decreasing clock the set tracks the admitted instants, within the limit |
| SlidingWindow.AdmitsExactly | Backend/src/auth/services/rate-limit.service.ts:8-61 | after any run a request is admitted if and only if fewer than limit distinct instants were admitted in its window, and remaining is what that leaves |
| SlidingWindow.WindowBound | Backend/src/auth/services/rate-limit.service.ts:8-61 | in any window (t-W, t] of any run at most limit distinct instants are admitted |
| SlidingWindow.DeniedUntilReset | Backend/src/auth/services/rate-limit.service.ts:8-61 | resetAt on denial is exact: every request before it is denied with the same reply, one at it is admitted |
| SlidingWindow.AdmissionResets | Backend/src/auth/services/rate-limit.service.ts:44-61 | resetAt on admission is the first time at which the window holds none of the instants admitted so far |
| SlidingWindow.SameInstantNotCounted | Backend/src/auth/services/rate-limit.service.ts:8-61 | any number of requests in one millisecond are all admitted once the limit is at least two |
| SlidingWindow.RateLimitService.First | Backend/src/auth/services/rate-limit.service.ts:28-33 | finds the smallest score of the sorted set |
| SlidingWindow.RateLimitService.CheckRateLimit | Backend/src/auth/services/rate-limit.service.ts:8-61 | equals the specification of one request, for set, expiry and reply |
| FixedWindow.AdvanceTracks | Contracts/contracts/cross-chain-router/src/bridge.rs:181-197 | a meter that resets on use keeps bounding what was used since its start and one window before it, for uses of any sign |
| FixedWindow.LastIntervalBound | Contracts/shared/src/circuit_breaker.rs:77-118 | any interval of one window up to the present holds at most current usage plus one cap plus what was given back in the window before |
| BridgeLimit.DepositKeepsSound | Contracts/contracts/cross-chain-router/src/bridge.rs:181-197 | every deposit of any sign, accepted or rejected, keeps the record sound for all accepted deposits |
| BridgeLimit.DepositExact | Contracts/contracts/cross-chain-router/src/bridge.rs:181-197 | a deposit is accepted if and only if the deposits of its period, this one included, stay within the limit and the numbers fit |
| BridgeLimit.RunExact | Contracts/contracts/cross-chain-router/src/bridge.rs:153-197 | over any run the recorded usage is the sum of the deposits accepted since the period began |
| BridgeLimit.SignedIntervalBound | Contracts/contracts/cross-chain-router/src/bridge.rs:153-197 | over any run of deposits of any sign, the sum accepted in any closed interval of window length is at most twice the limit plus what negative deposits gave back in the window before |
| BridgeLimit.IntervalBound | Contracts/contracts/cross-chain-router/src/bridge.rs:153-197 | for non-negative deposits the sum accepted in any closed interval of window length is at most twice the limit |
| BridgeLimit.TwiceTheLimitIsReached | Contracts/contracts/cross-chain-router/src/bridge.rs:181-197 | for every limit and window of at least two the factor two is attained |
| BridgeLimit.ZeroWindowHasNoBound | Contracts/contracts/cross-chain-router/src/bridge.rs:181-197 | with a zero window any number of full-limit deposits at one time is accepted |
| BridgeLimit.NegativeDepositMakesRoom | Contracts/contracts/cross-chain-router/src/bridge.rs:181-197 | for every limit, refund and window of at least three, a run in which one window takes twice the limit plus the whole refund, attaining the signed bound |
| BridgeLimit.Bridge.SetRateLimit | Contracts/contracts/cross-chain-router/src/bridge.rs:153-164 | stores a fresh record for one asset |
| BridgeLimit.Bridge.CheckDeposit | Contracts/contracts/cross-chain-router/src/bridge.rs:181-197 | equals the specification; an unlimited asset always passes; a rejected deposit stores nothing |
| CircuitBreaker.PeriodBound | Contracts/shared/src/circuit_breaker.rs:56-118 | over any run no period admits more than max(1, max_tx_count) activities |
| CircuitBreaker.IntervalBound | Contracts/shared/src/circuit_breaker.rs:56-118 | any interval of one period length admits at most twice that, less one |
| CircuitBreaker.ZeroPeriodAdmitsAll | Contracts/shared/src/circuit_breaker.rs:77-118 | with a period of zero and a count of at least two, every run of activities below the volume threshold one by one is admitted and never trips |
| CircuitBreaker.NothingAfterTrip | Contracts/shared/src/circuit_breaker.rs:56-118 | once tripped nothing succeeds and nothing changes, whatever is attempted |
| CircuitBreaker.TripsExactly | Contracts/shared/src/circuit_breaker.rs:77-118 | after any run the next activity is admitted if and only if the breaker is not paused and the sums fit; it trips the breaker if and only if the summed volume or the number of the activities admitted in its period, this one included, reaches its threshold |
| CircuitBreaker.RunExact | Contracts/shared/src/circuit_breaker.rs:77-118 | over any run volume and count are the sums over the activities admitted since the period began |
| CircuitBreaker.BelowThresholds | Contracts/shared/src/circuit_breaker.rs:77-118 | while not paused, a period that admitted anything is below both thresholds, so none admits more once it has reached one |
| CircuitBreaker.Contract.constructor | Contracts/shared/src/circuit_breaker.rs:42-53 | starts unpaused with an empty period |
| CircuitBreaker.Contract.RequireNotPaused | Contracts/shared/src/circuit_breaker.rs:56-74 | passes exactly when not fully paused and the function is not blocked under a partial pause |
| CircuitBreaker.Contract.TrackActivity | Contracts/shared/src/circuit_breaker.rs:77-118 | equals the specification; an aborting call stores nothing |

## Left out

- AmmLiquidity.SplitRemovalNeverGains: asks for no saturation of the single removal; `SplitRemovalGainsIff` is the exact condition without it.
- SplitBurn.SplitBurnNeverGains: the same premise; `SplitBurnGainsIff` is the exact condition.
- CircuitBreaker.PeriodBound: for a positive period; `ZeroPeriodAdmitsAll` says what a period of zero does.
- CircuitBreaker.IntervalBound: likewise.
- CircuitBreaker.TripsExactly: for a positive period, likewise.
- BridgeLimit.DepositExact: for a positive window.
- AuditTamper.AlterationDetected: asks for a signature that binds its arguments; `AlterationPassesIff` needs nothing.
- BridgeLimit.IntervalBound: for a positive window and non-negative deposits; `SignedIntervalBound` drops the sign and `ZeroWindowHasNoBound` covers the window.
- AuditLog.AppendVerifiesIff: asks for distinct, non-empty hashes, since nothing is assumed of the hash function.
- AuditLog.BackfillAcceptedIff: the same premise, for the same reason.
- AMM token transfers, token solvency, authentication, the initialisation and pause guards, events, and the sum of in-range positions equalling `pool.liquidity` after crossings.
- The registry of several pools, the owner-to-positions index and `capital_efficiency`: map updates that would only add easy members.
- Overflow of plain arithmetic is modelled as an abort without state change; the wrap-around of a build without overflow checks, and `i128::MIN / -1`, are not part of this model.
- Workflow retry, recovery, cancellation and force-compensation entry points, failing database saves during execution, step inputs, idempotency-key content, back-off delays, and the default of three retries for a zero `maxRetries` in a definition.
- Starting workflows under different keys: their rows and locks are independent.
- Redis errors in the sliding limiter (it then admits) and overlapping calls on one key.
- SHA-256, HMAC and signatures are abstract functions; the canonical JSON of the metadata is an opaque string.
- Bridge signatures, nonces and transfers; the breaker's admin calls (`pause_function`, `set_pause_level`); `assign_permissions_batch` and role creation in the ACL.
- Frontend, controllers, LLM, market-data, news and webhook services, and the DID, identity and report contracts.
