# Sturdy deployment and test helpers, in Dafny

This project models what the TypeScript helpers of the Sturdy lending protocol decide themselves, and
proves properties of those decisions for all inputs and all runs.

- `Division`, `Divisors`, `Decimals`, `RayMath`, `RoundTrips`, `RoundTripLimits`, `IndexLimits`,
  `Utilisation`, `Tolerance`, `CurrencyUnits`: the ray, wad and percentage arithmetic of the test
  helpers on non-negative integers. A BigNumber division rounds to a configured number of decimal
  places, and the operations then drop the fraction. Two configurations occur: `STOCK`, the library
  default of 20 places rounded half up, and `SCENARIO`, no places rounded down, which the scenario and
  liquidation suites set before they start (`test-suites/test-sturdy/scenario.spec.ts:23`). Laws are
  stated for every configuration that keeps the half of an odd number (`Sound`), and then for these two.
- `Linker`, `LibraryRegistry`: splicing library addresses into bytecode, and the library deployers
  memoised by the JSON file of deployed contracts.
- `Collections`, `ReserveInitialisation`, `ReserveTrace`: chunks, filters and ordered objects, the
  initialisation of a market's reserves as a list of transactions, and what these say about each other.
- `Handover`, `ReserveConfiguration`, `OracleRates`: work sent in chunks while a helper contract holds
  a role.
- `Aggregators`: pairing assets with price aggregators.
- `RetryTask`: the verification task with retries.

Results a maintainer may not expect:

- Under `STOCK`, `rayDiv(rayMul(s, a), a)` is not always `s` for an index of at least one ray: every
  index up to 10^7 above one ray fails on some balance (`StockFailsAboveOneRay`), and none beyond
  2 * 10^7 (`StockHoldsFarAboveOneRay`). `StockUndoingIff` decides every index, in both directions of
  the round trip. Under `SCENARIO` there is no exception (`ScenarioUndoingIff`).
- Under `STOCK`, `rayDiv` can give more for a larger divisor, from divisors of 2 * 10^47 on;
  `StockRayDivAntitoneIff` lists every case, `UtilisationIsMonotoneIff` those of the utilisation rate.
- The tolerance of three covers round trips up to seven rays and that of two up to five rays, and no
  index beyond (`ScenarioToleranceLimit`). Under `STOCK` some indices just below already fail
  (`StockToleranceLimit`, `StockFailsBelowOddRays`).
- Holes that overlap with different digits make linking depend on the order of the visits
  (`OrderDoesNotMatterIff`).
- The first `deployGenericLogic` call on a network decides for good which ReserveLogic is embedded
  (`FirstGenericLogicCallDecides`, `MismatchIsPermanent`).
- A clean-up that always fails makes the retry run forever once the attempts are used up
  (`FailingCleanupNeverEnds`).
- A run stopped between the first and the last transaction of a handover leaves the role with the
  helper (`OwnerDuringHandover`).

How the surroundings appear: the address of the n-th contract creation is a function of n that never
gives an empty address; compiled artifacts, the data provider's `usageAsCollateralEnabled`, the pool's
aToken of an asset, and the outcomes of the verification task and its clean-up are function parameters;
an object is a list of entries with unique string keys in key order; a missing entry is as falsy as an
empty string.

## Model

| member | source | states |
|---|---|---|
| Decimals.TwoStageRounding | test-suites/test-sturdy/helpers/utils/math.ts:45-97 | `div` then truncation is the floor, plus one exactly when 2 * 10^places times the distance of the remainder to the divisor is at most the divisor |
| Decimals.ExactIsTight | test-suites/test-sturdy/helpers/utils/math.ts:45-97 | the two roundings equal one floor for every numerator if and only if `div` rounds down or the divisor is below 2 * 10^places |
| Decimals.DivTruncateMonotone | test-suites/test-sturdy/helpers/utils/math.ts:45-97 | a larger numerator never gives a smaller result, whatever the configuration |
| RayMath.HalfIsFloor | test-suites/test-sturdy/helpers/utils/math.ts:60 | the truncated half of a divisor is its floored half |
| RayMath.NearestIsUnique | test-suites/test-sturdy/helpers/utils/math.ts:45-97 | the nearest integer is unique, so that being nearest determines a result |
| RayMath.NearestMonotone | test-suites/test-sturdy/helpers/utils/math.ts:49-67 | nearest integers of comparable fractions compare |
| RayMath.UnitDivMonotone | test-suites/test-sturdy/helpers/utils/math.ts:49-67 | the divisions are monotone in the numerator under every configuration |
| RayMath.UnitMulMonotone | test-suites/test-sturdy/helpers/utils/math.ts:45-57 | the multiplications are monotone under every configuration |
| RayMath.MoreOfLessIff | test-suites/test-sturdy/helpers/utils/math.ts:49-67 | raising a dividend of at most the divisor, with a divisor that grows by no more, never lowers the quotient, except exactly under a half-up `div` for the same dividend, the next smaller divisor b - 1, and x * unit / b half a unit of the last place short of one half: b even and b * (10^places - 1) = 2 * 10^places * x * unit |
| RayMath.UnitDivAntitoneIff | test-suites/test-sturdy/helpers/utils/math.ts:49-67 | dividing by more gives no more, with exactly that one exception, under every sound configuration |
| RayMath.StockRayDivAntitoneIff | test-suites/test-sturdy/helpers/utils/math.ts:59-67 | under STOCK rayDiv grows from divisor b - 1 to b exactly for multiples b of 2 * 10^47 and x = (10^20 - 1) * b / (2 * 10^47), and never otherwise |
| RayMath.StockSingleFloors | test-suites/test-sturdy/helpers/utils/math.ts:45-47 | wadMul, percentMul and rayToWad are one floor under STOCK |
| RayMath.StockRayMulExcess | test-suites/test-sturdy/helpers/utils/math.ts:55-57 | rayMul under STOCK exceeds the single floor by one exactly when the remainder is within 5 * 10^6 of a ray |
| RoundTrips.RoundIs | test-suites/test-sturdy/helpers/utils/math.ts:45-97 | adding half and dividing gives the quotient, plus one exactly when the remainder goes up |
| RoundTrips.UnitDivIsNearestIff | test-suites/test-sturdy/helpers/utils/math.ts:49-67 | rayDiv, wadDiv and percentDiv give the integer nearest to the true quotient, ties up, also for odd divisors, if and only if the remainder is not within `Lift` below half: always under SCENARIO, and under STOCK for divisors below 2 * 10^20 |
| RoundTrips.UnitMulIsNearestIff | test-suites/test-sturdy/helpers/utils/math.ts:45-57 | rayMul, wadMul and percentMul give the nearest integer to the product over the unit under the same exact condition |
| RoundTrips.CoarserRoundUndoesFiner | test-suites/test-sturdy/helpers/utils/math.ts:55-67 | rounding to multiples of d and then of a larger e returns the start unless both roundings go up |
| RoundTrips.UnitDivUndoesUnitMulIff | test-suites/test-sturdy/helpers/utils/math.ts:45-67 | for an index of at least one unit, dividing undoes multiplying if and only if the stated condition on the product's remainder holds |
| RoundTrips.UnitMulUndoesUnitDivIff | test-suites/test-sturdy/helpers/utils/math.ts:45-67 | for an index of at most one unit, multiplying undoes dividing if and only if the mirrored condition holds |
| RoundTrips.RayDivUndoesRayMulIff | test-suites/test-sturdy/helpers/utils/math.ts:55-67 | exact condition for rayDiv(rayMul(s, a), a) = s, a at least one ray |
| RoundTrips.RayMulUndoesRayDivIff | test-suites/test-sturdy/helpers/utils/math.ts:55-67 | exact condition for rayMul(rayDiv(x, a), a) = x, a at most one ray |
| Divisors.MultiplesReach | test-suites/test-sturdy/helpers/utils/math.ts:55-67 | the remainders modulo a unit that products with an index leave are exactly the multiples of the greatest common divisor of both |
| RoundTripLimits.RoundTripLimit | test-suites/test-sturdy/helpers/utils/math.ts:45-67 | dividing by an index and multiplying by it keeps every amount within j if and only if the index is at most 2 * j + 1 units and no multiple of the greatest common divisor slips, that is, takes both roundings up and together j units too far |
| RoundTripLimits.DividingUndoesIff | test-suites/test-sturdy/helpers/utils/math.ts:45-67 | dividing undoes multiplying for every balance if and only if the index is at least one unit and on no such multiple both roundings go up |
| RoundTripLimits.SomeSlipIff | test-suites/test-sturdy/helpers/utils/math.ts:45-67 | the multiples that slip are those in an interval that reaches `Lift` around half the unit |
| RoundTripLimits.SomeClashIff | test-suites/test-sturdy/helpers/utils/math.ts:45-67 | the same for both roundings going up on the way back |
| IndexLimits.ScenarioRoundTripLimit | test-suites/test-sturdy/helpers/utils/math.ts:55-67 | under SCENARIO every amount comes back within j exactly for indices up to 2 * j + 1 rays |
| IndexLimits.ScenarioUndoingIff | test-suites/test-sturdy/helpers/utils/math.ts:55-67 | under SCENARIO rayDiv(rayMul(s, a), a) = s for every s exactly from one ray on, rayMul(rayDiv(x, a), a) = x for every x exactly up to one ray |
| IndexLimits.StockRoundTripLimit | test-suites/test-sturdy/helpers/utils/math.ts:55-67 | under STOCK the limit of 2 * j + 1 rays is the same, but for the indices with which a multiple of the common divisor lies in an interval around half a ray |
| IndexLimits.StockUndoingIff | test-suites/test-sturdy/helpers/utils/math.ts:55-67 | under STOCK the exact indices for which each of the two undoes the other on every amount |
| IndexLimits.StockHoldsFarFromOddRays | test-suites/test-sturdy/helpers/utils/math.ts:55-67 | under STOCK every amount comes back within j at 2 * j + 1 rays and below by more than (j + 1) * 2 * 10^7 |
| IndexLimits.StockHoldsFarAboveOneRay | test-suites/test-sturdy/helpers/utils/math.ts:55-67 | under STOCK dividing undoes multiplying at one ray and beyond 2 * 10^7 above it |
| IndexLimits.StockFailsAboveOneRay | test-suites/test-sturdy/helpers/utils/math.ts:55-67 | under STOCK every index up to 10^7 above one ray has a balance that does not come back |
| IndexLimits.StockFailsBelowOddRays | test-suites/test-sturdy/helpers/utils/math.ts:55-67 | under STOCK every index less than 2^27 and at most (2 * j + 1) * 10^7 - 2 below 2 * j + 1 rays takes some amount more than j off; for one ray, up to 10^7 - 2 below it |
| RoundTrips.RoundError | test-suites/test-sturdy/helpers/utils/math.ts:45-97 | one rounding is off by at most half a divisor, and half a last decimal place of it under a half-up `div` |
| RoundTrips.RoundTripError | test-suites/test-sturdy/helpers/utils/math.ts:55-67 | dividing and multiplying by any non-zero index returns within (index + unit) / 2 units, stretched by the last place |
| RoundTrips.ScenarioRayRoundTripError | test-suites/test-sturdy/helpers/utils/math.ts:55-67 | 2 RAY times the round-trip error is at most a + RAY |
| RoundTrips.SumOfUnitMulsError | test-suites/test-sturdy/helpers/utils/math.ts:55-57 | the sum of n rounded products is within n roundings of the exact product of the sum |
| RoundTrips.DriftOverBalances | test-suites/test-sturdy/helpers/utils/math.ts:55-57 | rounding n balances one by one or their sum once differs by at most (n + 1) roundings |
| RoundTrips.ScenarioDrift | test-suites/test-sturdy/helpers/utils/math.ts:55-57 | under SCENARIO that difference is at most (n + 1) / 2 |
| RoundTrips.OperationsInFigures | test-suites/test-sturdy/helpers/utils/math.ts:45-97 | the operations as nearest integers with their units in figures: 10^27, 10^18, 10^4 and the ratio 10^9 |
| RoundTrips.DivisionByZero | test-suites/test-sturdy/helpers/utils/math.ts:49-67 | dividing by zero gives NaN for zero and Infinity otherwise |
| RoundTrips.WadToRayIsInjective | test-suites/test-sturdy/helpers/utils/math.ts:69-77 | rayToWad(wadToRay(w)) = w |
| RoundTrips.RayToWadError | test-suites/test-sturdy/helpers/utils/math.ts:69-77 | wadToRay(rayToWad(r)) is within 5 * 10^8 of r |
| RoundTrips.PercentMulUndoesPercentDiv | test-suites/test-sturdy/helpers/utils/math.ts:83-97 | percentMul(percentDiv(x, p), p) = x for 0 < p up to 10000, under both configurations |
| RoundTrips.PercentDivUndoesPercentMul | test-suites/test-sturdy/helpers/utils/math.ts:83-97 | percentDiv(percentMul(x, p), p) = x for p from 10000, under both configurations |
| RoundTrips.WadMulUndoesWadDiv | test-suites/test-sturdy/helpers/utils/math.ts:45-53 | wadMul(wadDiv(x, a), a) = x for 0 < a up to one wad, under both configurations |
| RoundTrips.WadDivUndoesWadMul | test-suites/test-sturdy/helpers/utils/math.ts:45-53 | wadDiv(wadMul(x, a), a) = x for a from one wad, under both configurations |
| RoundTrips.PercentSplit | test-suites/test-sturdy/helpers/utils/math.ts:83-88 | the two parts of a percentage split sum to the amount, or one more exactly on a tie |
| RoundTrips.SplitRounds | test-suites/test-sturdy/helpers/utils/math.ts:45-97 | two parts of a multiple rounded separately sum to it, or one more exactly when both go up |
| Utilisation.FiguresAre | test-suites/test-sturdy/helpers/utils/helpers.ts:45-55 | liquidity is debt plus what is available, debt the sum of both kinds, and the rate the nearest integer to the debt in rays over the liquidity, with the exact exception, or zero without liquidity |
| Utilisation.UtilisationIsBounded | test-suites/test-sturdy/helpers/utils/helpers.ts:45-55 | utilisation is a number from zero to one ray for all balances, zero without debt and one ray without available liquidity |
| Utilisation.UtilisationIsMonotoneIff | test-suites/test-sturdy/helpers/utils/helpers.ts:45-55 | utilisation does not fall with more debt or less available liquidity, except exactly where the debt stays, the available liquidity is one less, and debt * RAY / liquidity was half a unit of the last place short of one half |
| Utilisation.UsedAndUnusedSumToOneRay | test-suites/test-sturdy/helpers/utils/helpers.ts:45-55 | the used and the unused share sum to one ray, or one more exactly when both round up |
| Utilisation.ScenarioSumsToOneRay | test-suites/test-sturdy/helpers/utils/helpers.ts:45-55 | under SCENARIO one more exactly on a tie |
| Tolerance.SevenCasesAreThree | test-suites/test-sturdy/helpers/actions.ts:72-83 | the seven cases are a truncated difference of at most three; numbers within three pass, those five apart fail |
| Tolerance.FiveCasesAreTwo | test-suites/test-sturdy/helpers/almost-equal.ts:5-11 | the five cases are an integer difference of at most two; fractional differences fail |
| Tolerance.SimilarIsStrictWindow | test-suites/test-sturdy/helpers/almost-equal.ts:35-50 | isSimilar is a difference strictly below 10^decimals |
| Tolerance.ScenarioToleranceLimit | test-suites/test-sturdy/helpers/actions.ts:72-83 | under SCENARIO every round trip passes the first comparison if and only if the index is at most seven rays, and the second if and only if it is at most five |
| Tolerance.StockToleranceLimit | test-suites/test-sturdy/helpers/actions.ts:72-83 | under STOCK the same limits, with the exact indices just below them that fail |
| CurrencyUnits.UnitsRoundTrip | helpers/contracts-helpers.ts:190-203 | converting to whole tokens and back returns the amount if and only if it is a multiple of the step 10^(decimals - places), and otherwise stays within one step, half a step when rounding half up |
| CurrencyUnits.UnitsRoundTripInUse | helpers/contracts-helpers.ts:190-203 | exact under STOCK for tokens of at most 20 decimals; under SCENARIO exactly for whole tokens |
| CurrencyUnits.WholeTokens | helpers/contracts-helpers.ts:190-195 | a string of whole tokens is read as that many times ten to the decimals |
| CurrencyUnits.UnitsAreTheQuotient | helpers/contracts-helpers.ts:197-203 | the amount in whole tokens is the quotient by ten to the decimals, to the configured places and in the configured mode |
| CurrencyUnits.DecimalsAreTheQuotient | helpers/contracts-helpers.ts:190-195 | reading a decimal number is exact, or rounds away the places the token does not have |
| Linker.LinkBytecode | helpers/contracts-helpers.ts:118-139 | the three nested loops apply the listed edits, skipping unresolved libraries; every hole of a library with an address ends up filled and nothing else changed |
| Linker.LinkFillsEveryHole | helpers/contracts-helpers.ts:118-139 | for every file, library and fixup of the artifact whose library has an address, the linked text holds that address without its prefix in the hole, and every character outside all these holes is the original one |
| Linker.SpliceKeepsBothEnds | helpers/contracts-helpers.ts:129-134 | one splice, whatever hole and address: the text before the hole, the address without its prefix, and the text after the hole, as far as the bytecode reaches |
| Linker.ApplyAllIsLinked | helpers/contracts-helpers.ts:118-139 | length is kept, every resolved hole holds its library's digits, every other character is unchanged |
| Linker.LinkedIsUnique | helpers/contracts-helpers.ts:118-139 | only one text has those properties |
| Linker.OrderDoesNotMatter | helpers/contracts-helpers.ts:121-136 | any reordering of the visits links alike, when resolved holes hold the same digits where they overlap |
| Linker.OrderDoesNotMatterIff | helpers/contracts-helpers.ts:121-136 | edits that fit link alike in every order if and only if any two resolved edits put the same digit at every character both cover |
| Linker.StagedLinking | helpers/contracts-helpers.ts:118-139 | linking with one map and then another is linking once with both, the later one winning |
| Linker.StagesCommute | helpers/contracts-helpers.ts:118-139 | stages that agree commute, and linking twice is linking once |
| Linker.LinkedHoleHoldsAddress | helpers/contracts-helpers.ts:129-134 | a resolved hole read back is the library's address without its prefix |
| LibraryRegistry.LibraryDeployer.InsertContractAddressInDb | helpers/contracts-helpers.ts:53-58 | the registry after a plain write |
| LibraryRegistry.LibraryDeployer.DeployAndSave | helpers/contracts-helpers.ts:99-111 | one creation is appended and recorded under its id and network |
| LibraryRegistry.LibraryDeployer.DeployReserveLogicLibrary | helpers/contracts-deployments.ts:248-260 | the memoised step, and the recorded address is returned |
| LibraryRegistry.LibraryDeployer.DeployGenericLogic | helpers/contracts-deployments.ts:262-283 | the memoised step with bytecode linked to the given ReserveLogic |
| LibraryRegistry.LibraryDeployer.DeployValidationLogic | helpers/contracts-deployments.ts:285-312 | the memoised step with bytecode linked to both given libraries |
| LibraryRegistry.LibraryDeployer.DeploySturdyLibraries | helpers/contracts-deployments.ts:314-337 | the three steps in sequence, returning the recorded addresses, neither of them empty |
| LibraryRegistry.LibraryDeployer.DeploySwapAdapterLibrary | helpers/contracts-deployments.ts:2605-2625 | the memoised step of the swap-adapter libraries, linked against no library |
| LibraryRegistry.SingleCallRecords | helpers/contracts-deployments.ts:248-312 | after a single deployer its id is recorded; unless it was before, exactly one creation with that code was appended and nothing else changed; a plain write records the address |
| LibraryRegistry.SturdyLibrariesAreRecorded | helpers/contracts-deployments.ts:314-337 | after deploying the libraries from any state all three are recorded on that network |
| LibraryRegistry.SturdyLibrariesFromEmpty | helpers/contracts-deployments.ts:314-337 | from an empty registry that creates exactly ReserveLogic, GenericLogic linked to it, and ValidationLogic linked to both, and records the three |
| LibraryRegistry.StepIsConsistent | helpers/contracts-deployments.ts:248-337 | every call keeps: each library created at most once per network, recorded exactly where created |
| LibraryRegistry.RunsAreConsistent | helpers/contracts-deployments.ts:248-337 | the same over every run |
| LibraryRegistry.RegistryRecordsCreations | helpers/contracts-deployments.ts:248-337 | after every run from an empty registry a recorded library is the only one of its id and network, at the recorded address |
| LibraryRegistry.RunGrows | helpers/contracts-deployments.ts:248-337 | a recorded library address never changes, so every later call returns it |
| LibraryRegistry.StepIsLinked | helpers/contracts-deployments.ts:262-337 | a call that hands over recorded contracts keeps every created library linked to the recorded addresses of its network |
| LibraryRegistry.RunsStayLinked | helpers/contracts-deployments.ts:262-337 | the same over every run |
| LibraryRegistry.RecordedLibrariesEmbedEachOther | helpers/contracts-deployments.ts:262-337 | after every such run GenericLogic holds the recorded ReserveLogic digits in its holes, ValidationLogic those of both |
| LibraryRegistry.FirstGenericLogicCallDecides | helpers/contracts-deployments.ts:262-283 | for arbitrary later calls the network's only GenericLogic is linked to the address of the first call |
| LibraryRegistry.FirstValidationLogicCallDecides | helpers/contracts-deployments.ts:285-312 | the same for ValidationLogic and both addresses |
| LibraryRegistry.EmbedsOnlyTheFirst | helpers/contracts-deployments.ts:262-312 | linked code embeds an address if and only if the digits are those handed over |
| LibraryRegistry.MismatchIsPermanent | helpers/contracts-deployments.ts:248-283 | GenericLogic handed another address than that of the recorded ReserveLogic never embeds the recorded one, whatever is called later |
| LibraryRegistry.SturdyLibrariesIsIdempotent | helpers/contracts-deployments.ts:314-337 | deploying the libraries again changes nothing |
| Collections.ChunkIsCut | helpers/misc-utils.ts:79-87 | the index reduction is cutting the array from the front |
| Collections.ChunkIsPartition | helpers/misc-utils.ts:79-87 | the chunks concatenate to the array, none empty or too large, all but the last full |
| Collections.ChunkElement | helpers/misc-utils.ts:79-87 | element j of chunk k is element k * size + j |
| Collections.ChunksMatch | helpers/misc-utils.ts:79-87 | equally long arrays have matching chunks |
| Collections.ChunkOfSizeZero | helpers/misc-utils.ts:79-87 | size zero loses every element |
| Collections.OmitIsFilter | helpers/misc-utils.ts:119-123 | `omit` keeps in order exactly the entries under other keys |
| Collections.FilterMapBy | helpers/misc-utils.ts:71-77 | the in-place accumulation keeps in order exactly the accepted entries |
| Collections.GetIsListed | helpers/init-helpers.ts:157-164 | looking a key up gives exactly the non-empty value listed first under it, and nothing where there is none |
| Aggregators.PairsAreThePricedAssets | helpers/contracts-getters.ts:251-292 | the call throws if and only if a non-quote asset is unknown, USD being the quote for USD and ETH and WETH for anything else; otherwise both lists pair, in order and once each, the assets with the set aggregator listed for their symbol |
| ReserveInitialisation.CollectReserves | helpers/init-helpers.ts:152-204 | the loop with its records and arrays creates the first strategy of every name and holds each retained reserve's fields |
| ReserveInitialisation.BuildInitInputs | helpers/init-helpers.ts:206-233 | arrays read by position and records by symbol give each reserve its own record |
| ReserveInitialisation.InitInChunks | helpers/init-helpers.ts:235-269 | the nested loops send the chunks in order and collect all aTokens and all emissions by chunkIndex * 4 + tokenIndex |
| ReserveInitialisation.InitReserves | helpers/init-helpers.ts:139-271 | the whole run sends exactly the implementations, one strategy per name, the batches of the flat list of records, and the incentives |
| ReserveInitialisation.RetainedInOrder | helpers/init-helpers.ts:152-164 | the reserves that are initialised are, in order and once each, exactly those with one of the two implementations and a token address listed under their symbol |
| ReserveTrace.RunConsistsOf | helpers/init-helpers.ts:139-253 | the creations among the transactions that `InitReserves` appends are the four implementations and one strategy per name, and their batches hold the records of the retained reserves |
| ReserveTrace.RecordsNameTheirCreations | helpers/init-helpers.ts:139-233 | every address of an implementation or a strategy in a sent record is that of the creation of its kind in the same run: the aToken of the kind the reserve asks for, the strategy with each of the eight parameters, by position, of the first retained reserve of that strategy name |
| ReserveTrace.RecordsListEveryReserve | helpers/init-helpers.ts:152-253 | the batches hold one record for each such reserve, in order and at most four at a time, and each record has the decimals, listed token and yield address (or the zero address), token names, symbols and parameters of its reserve |
| ReserveTrace.RecordsHaveDistinctSymbols | helpers/init-helpers.ts:206-233 | no two records of a run have one symbol |
| ReserveTrace.IncentivesMatchTheRecords | helpers/init-helpers.ts:255-271 | the last transaction configures, at each record's position, the aToken of its asset with the emission of its reserve |
| ReserveTrace.ContractsComeBeforeRecords | helpers/init-helpers.ts:139-253 | every contract is created before the first batch is sent |
| ReserveInitialisation.IncentivesFollowTheRecords | helpers/init-helpers.ts:245-271 | position chunkIndex * 4 + tokenIndex of the incentives is the aToken and the emission of that record's reserve |
| ReserveInitialisation.OneStrategyPerName | helpers/init-helpers.ts:172-190 | one creation per strategy name, with the parameters of the first retained reserve of that name |
| ReserveInitialisation.StrategyAddressIsItsCreation | helpers/init-helpers.ts:174-191 | a reserve's strategy address is where the strategy of its name was created, with each parameter at its place |
| ReserveInitialisation.SameNameSameAddress | helpers/init-helpers.ts:172-191 | reserves share a strategy address if and only if they share the name |
| Handover.SendUnderHelper | helpers/init-helpers.ts:519-535 | the transactions and the final owner of a handover |
| Handover.OwnerDuringHandover | helpers/init-helpers.ts:519-535 | the owner after every prefix of the transactions, stopped runs included |
| Handover.WorkRunsUnderHelper | helpers/init-helpers.ts:523-530 | every batch is sent while the helper is the owner |
| ReserveConfiguration.CollectInputs | helpers/init-helpers.ts:469-516 | the loop with its skips collects exactly the inputs of the eligible reserves |
| ReserveConfiguration.ConfigureReserves | helpers/init-helpers.ts:452-537 | the transactions sent and the final administrator |
| ReserveConfiguration.EveryEligibleReserveOnce | helpers/init-helpers.ts:469-536 | the sent batches hold, once and in order, one input for each reserve with a listed address, a loan-to-value and no collateral use yet, with the address and each of the seven fields of that reserve; at most 20 a batch, each batch under the helper, the administrator last, nothing sent if nothing is eligible |
| OracleRates.SetInitialMarketRates | helpers/oracles-helpers.ts:17-67 | a market without an address throws before any transaction; otherwise the handover with the paired batches |
| OracleRates.RateStaysWithAsset | helpers/oracles-helpers.ts:42-58 | position j of batch k holds address and rate of market 20 * k + j |
| OracleRates.BatchesHoldEveryMarket | helpers/oracles-helpers.ts:42-58 | the batches together list every market once and in order, at most 20 at a time |
| OracleRates.OracleIsHandedBack | helpers/oracles-helpers.ts:47-66 | the helper owns the oracle during the batches, the administrator in the end |
| RetryTask.RunTaskWithRetry | helpers/etherscan-verification.ts:69-118 | if some round does not throw an ordinary message the recursion ends, at that round at the latest, and performs the rounds of the step machine |
| RetryTask.KindOfMessage | helpers/etherscan-verification.ts:96-115 | a message is fine if it mentions a fine part, fatal if it mentions a fatal part and no fine one, and otherwise retried, without the sources exactly if it mentions that they could not be verified |
| RetryTask.PartsLookedFor | helpers/etherscan-verification.ts:6-15 | the parts messages are searched for |
| RetryTask.RoundEnds | helpers/etherscan-verification.ts:79-108 | how a round ends the task, in terms of the message thrown by the task or by the clean-up |
| RetryTask.RoundIsLogged | helpers/etherscan-verification.ts:79-93 | a round makes one run while attempts are left, and attempts the clean-up unless the run failed |
| RetryTask.RunHasSourcesIff | helpers/etherscan-verification.ts:82-116 | over every sequence of outcomes run number k has the related sources if and only if the task had them at the start, it is not the last permitted run, and no earlier round threw the message that they could not be verified |
| RetryTask.StepIsSound | helpers/etherscan-verification.ts:76-117 | every round keeps the bounds on runs, clean-ups and related sources |
| RetryTask.EveryRunOfTheTask | helpers/etherscan-verification.ts:69-118 | over every sequence of outcomes: at most `times` runs, related sources never restored and absent from the last permitted run, one successful clean-up exactly on success or exhaustion |
| RetryTask.RunningWhileRoundsGoOn | helpers/etherscan-verification.ts:94-117 | the task is still running if and only if every round so far threw an ordinary message |
| RetryTask.FirstStopDecides | helpers/etherscan-verification.ts:79-108 | the first other round decides the ending, and nothing follows |
| RetryTask.EndsInTime | helpers/etherscan-verification.ts:69-118 | with a clean-up that stops failing it ends one round after attempts and failures are used up |
| RetryTask.FailingCleanupNeverEnds | helpers/etherscan-verification.ts:88-116 | a clean-up that always fails with an ordinary message is retried forever |

## Left out

- The Solidity protocol and the expected-state calculations of the suites.
- Negative or fractional operands of the ray, wad and percentage operations; dividing by zero gives
  `Infinity` or `NaN` in the model as in the library.
- The ftm copies of the arithmetic and comparison helpers, which equal the sturdy ones.
- Object quirks: integer-like keys that come first, and keys found on the prototype.
- RetryTask.RunTaskWithRetry: asks for a round that does not throw an ordinary message; without one the source does not end either (`RunningWhileRoundsGoOn`, `FailingCleanupNeverEnds`).
- RoundTripLimits.RoundTripLimit: asks for an even unit, as ray, wad and the percentage factor are, and under a half-up `div` for 2 * j + 1 < 10^places, where one rounding alone cannot go j + 1 units too far.
- Linker.OrderDoesNotMatterIff: is about holes inside the bytecode and addresses of their length, as compilers emit them; for all others there is `LinkBytecode` with `SpliceKeepsBothEnds`.
- Linker.LinkFillsEveryHole: asks besides that holes hold the same digits where they overlap; otherwise the text depends on the order of the visits (`OrderDoesNotMatterIff`), and the last visit wins.
- LibraryRegistry.RecordedLibrariesEmbedEachOther: is about calls that hand over recorded contracts, as `deploySturdyLibraries` does; other calls are covered by `FirstGenericLogicCallDecides`.
- The transaction `deployCurveswapAdapterLibrary` sends before it deploys, contract verification, and the deployer recorded beside an address.
- The registry writes inside `initReservesByHelper`, and its tail that registers yield distributors for fixed symbols.
- The aToken of an asset is a function of the asset; that the pool knows it only after its batch is not modelled.
- The older `getPairsTokenAggregator` in `helpers/init-helpers.ts`, `setInitialAssetPricesInOracle` and the mock aggregators: the same lookups again.
- `verifyEtherscanContract`, delays, console output and environment variables.
- Per-network and per-pool parameter switches, permit and swap parameter encoding, tasks and market tables.
