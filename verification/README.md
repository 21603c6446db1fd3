# Verified model of the Marvell DDR training library

This project models the DDR PHY training algorithms of `mv-ddr-marvell` in Dafny and proves what
they guarantee. Training searches delays, skews and reference voltages tap by tap and decides on
pass/fail answers of the hardware. The hardware is arbitrary here: every FIFO reading, lock bit,
tap, window length and compare result is an unconstrained input, so each statement holds for all
runs. The files follow the library's components:

| file | component |
|---|---|
| `Common.dfy` | declarations that several components share |
| `ReadLeveling.dfy` | the read-leveling DQS burst search of one chip-select |
| `ReadLevelingResult.dfy` | its post-processing, the whole procedure, and the delay read back by the stability log |
| `PassInterval.dfy` | the circular pass-interval finder for data-mask tuning |
| `PerBitSkew.dfy` | per-bit-skew calibration |
| `AdllValues.dfy` | saving and restoring a PHY register through a flat array |
| `TrainingWrapper.dfy` | bit and byte classification, middle search, 64-tap alignment, result buffer layout |
| `Centralization.dfy` | window intersection over all patterns, midpoint, recorded window length |
| `VrefSearch.dfy` | the Vref search |
| `WriteLevelingSupp.dfy` | the write-leveling supplement |
| `FrequencySwitch.dfy` | the order of the frequency switch |
| `ChipSelectMask.dfy` | the chip-select mask of mode register commands |
| `PhyAccess.dfy` | the multicast PHY read-modify-write |

`dafny verify dfyconfig.toml` verifies everything.

## Main results

- Read leveling (`ReadLeveling.IsOutcome`, `LockIsWindowMidpoint`, `OutcomeTraceIsUnique`): a subphy
  is locked exactly when its readings contain a window in the visited trace, and then it holds the
  midpoint of the first one. The trace itself is determined by the readings.
- Read leveling end to end (`RlDqsBurst`, `ProgrammedDelayIsWindowMidpoint`): every connected subphy of
  every chip-select is programmed with a window midpoint exactly when each has a window, and the
  stability log reads that midpoint back exactly when phase and sample delay fit their fields.
- Interval finder (`Interval.Proc`, `DmToDqDiff`): the result is the maximal circular run at the
  marker, and the exact condition for finding one is a property of the vector alone.
- Per-bit skew (`Pbs.Run`): final state, lock and normalised skews of every pup are decided by its
  readings, the skew registers keep all differences between the bits, and the shifted register is
  restored.
- Training wrapper (`Engine.Run`): final byte status and result words of every byte are decided by
  its own results; windows are moved as a whole.
- Centralization (`Centralizer.Run`, `ReadMidpointIsGood`, `WriteMidpointIsGood`): a good bus holds the
  exact intersection of all windows; when reading, the programmed tap lies in each of them, and for
  writing the exact condition is given.
- Vref (`Search.Run`, `FinalIndexWasMeasured`, `MeasuredInEveryRun`, `KeepsTheWidestExactly`): for any
  number of lanes, every searched pup converges within five rounds on the index that its compared
  windows decide; exactly when that index was measured, and exactly when its window is a widest one.

## Findings

Properties that one would expect and that the code does not have, each with the exact condition
under which it does:

- Read leveling always returns MV_OK with a successful training result: an incomplete lock count is
  only logged. A connected subphy without a window is programmed with the start of its last run of
  hits, or tap 0 (`UnlockedSubphyIsProgrammedStale`, `SilentSubphysAreProgrammed`; exact condition in
  `RlDqsBurst`).
- It also reads unconnected subphys. One that locks is counted twice, so in every configuration with a
  connected and an unconnected subphy the sweep can end before the window of a connected one
  (`UnconnectedSubphyCountedTwice`; exact conditions in `FullCountInEveryRun` for a configuration and
  in `FullCountMeansAllLocked` and `QuietUnconnectedSubphys` for a run).
- The delay re-encoding loses bits when a subphy lies 256 taps or more above the shared sample delay
  or the sample delay exceeds 31 (`LoggedDelayIsExact`, with an input in `LateWindowIsNotLogged`).
- A PBS pup that fails in EBA but locks in the SBA shift ends with lock 1 and skews of 225, the 8-bit
  result of 0 - 0x1f (`FailedButLocked`, with an input in `FailedButLockedExample`). Such a pup makes
  the calibration return a failure without marking the interface's training result as failed
  (`Pbs.Run`).
- Skew taps above 31, which the mask of the writing mode lets through, spoil the extremes of a pup: no
  normalised skew is 0 exactly when all taps are above 31, and a bit without lock in SBA resets the
  recorded maximum (`Calibrated`, `MaxKeptExactly`, with inputs in `LateTapsExample` and
  `ResetAfterLateExample`).
- Bits whose edges are inverted across tap 32 belong to no class (`GuardsAreExclusive`) and keep the
  initial state, which is that of a low bit. The comment above the wrapper describes split-out bits by
  inverted edges; the code asks for a distance above 32, and the model follows the code.
- The 64-tap alignment goes through a null pointer exactly when a mixed byte has a low bit and no
  byte had a wrapped-around bit (`Engine.Run`, `AlignmentWithoutMiddleSearch`).
- The recorded length of a read window overlaps its neighbours: the full window of 32 taps reads back
  as 0, and recording it clears the length of the written window (`LengthReadsBack`).
- The window check accepts a written window that ends at tap 63 and starts beyond it, and exactly then
  its midpoint does not lie in all windows (`WriteMidpointIsGood`, with an input in
  `DisjointWindowsAreAccepted` that the training wrapper produces, `DisjointWindowsAreReached`).
- The Vref search is not an argmax (`KeepsTheWidestExactly`, with an input in `KeepsTheNarrowest`), and
  its early exit never fires: it always makes ten rounds (`Search.Run`).
- The Vref search measures no window in a round before which exactly four pups have converged; a pup
  that still searches compares its last window again. It lands on measured indices in every run exactly
  when at most four pups are searched (`MeasuredInEveryRun`, with an input in `FifthPupIsNotMeasured`).
  Pups beyond the fourth compare arbitrary bytes, because the measurement returns four lengths, and
  their 16-bit windows can wrap around (`AverageIsExact`, with an input in `WrappedWindowDecides`).
- A bus that fails the write-leveling supplement keeps its write leveling, but its data delay stays 5
  taps below its value at entry (`FailsAll`).
- A missing PHY configuration leaves the memory blocked and in self-refresh (`Dunit.SwitchInterface`).

## Modelling decisions

- Every platform sets the number of interfaces to one, so the large algorithms model one interface.
  Buses, chip-selects, patterns and, where layout matters, interfaces are parameters.
- Register accesses succeed. Registers with named fields are records or are written with `/` and `%`
  on natural numbers; where bit patterns overlap, bit-vectors are used.
- 8-bit, 16-bit and 32-bit wrap-around is written out where it can occur.
- Masked chip-select bits are sets of bit positions.

## Model

| member | source | states |
|---|---|---|
| ReadLeveling.ReadSubphy | mv-ddr-marvell/ddr3_training_leveling.c:1990-2075 | one reading moves the record from describing the readings so far to describing them with the new one: run start inside, first window's midpoint at lock, jitter back to ahead; the shared counters change only at a lock |
| ReadLeveling.ReadTap | mv-ddr-marvell/ddr3_training_leveling.c:1976-2077 | after one tap all records, the lock count, the extremes and the adaptive step describe the extended trace |
| ReadLeveling.SearchChipSelect | mv-ddr-marvell/ddr3_training_leveling.c:1928-2082 | the outcome describes a trace from tap 0 that advances by the smallest demanded step and stops at the first tap where the lock count is the number of subphys, or at the end of the range |
| ReadLeveling.BehindKept | mv-ddr-marvell/ddr3_training_leveling.c:1978-1979 | a locked subphy stays locked at the same value |
| ReadLeveling.BehindIffWindow | mv-ddr-marvell/ddr3_training_leveling.c:2017-2071 | a subphy is locked exactly when its readings contain a window |
| ReadLeveling.CountLock | mv-ddr-marvell/ddr3_training_leveling.c:2058-2069 | a new lock keeps the count and the minimum and maximum of the locked values exact |
| ReadLeveling.SettledCount | mv-ddr-marvell/ddr3_training_leveling.c:2027-2082 | the lock counter is the initial number plus the number of subphys with a window |
| ReadLeveling.LockIsWindowMidpoint | mv-ddr-marvell/ddr3_training_leveling.c:2017-2071 | a locked value is the floor midpoint of a run of hits that starts after a miss and is 20 to 128 taps wide |
| ReadLeveling.StepNeverGrows | mv-ddr-marvell/ddr3_training_leveling.c:2001-2012 | the step is 64, 32, 16 or 2 and never grows |
| ReadLeveling.StepByWords | mv-ddr-marvell/ddr3_training_leveling.c:2001-2012 | before any lock the step is 2, 16, 32 or 64 by the FIFO words nearest to the lock position that were read outside a run |
| ReadLeveling.StepAfterLock | mv-ddr-marvell/ddr3_training_leveling.c:2044-2071 | from the first lock on the step is 2 |
| ReadLeveling.TraceByWords | mv-ddr-marvell/ddr3_training_leveling.c:1935-2077 | the distance of every tap of a sweep from the one before, in terms of the FIFO words |
| ReadLeveling.WindowInNumbers | mv-ddr-marvell/ddr3_training_leveling.c:2017-2056 | which runs of hits close as a window, in taps |
| ReadLeveling.SweepInNumbers | mv-ddr-marvell/ddr3_training_leveling.c:1935-2082 | where a sweep starts and when it ends, in taps |
| ReadLeveling.LastStartIsStart | mv-ddr-marvell/ddr3_training_leveling.c:1995-1998 | the value of a subphy without lock is the start of a run of hits after which nothing hits, or 0 |
| ReadLeveling.OutcomeTraceIsUnique | mv-ddr-marvell/ddr3_training_leveling.c:1935-2082 | the readings determine the whole trace of a search |
| ReadLeveling.OutcomeExists | mv-ddr-marvell/ddr3_training_leveling.c:1928-2082 | for all readings, any number of subphys and any initial count there is an outcome |
| ReadLevelingResult.CountInactive | mv-ddr-marvell/ddr3_training_leveling.c:1868-1872 | the count is the number of unconnected subphys times the number of chip-selects |
| ReadLevelingResult.PostProcess | mv-ddr-marvell/ddr3_training_leveling.c:2101-2138 | sample and ready delay come from the smallest locked value; every active subphy gets its delay relative to it, inactive ones nothing |
| ReadLevelingResult.RlDqsBurst | mv-ddr-marvell/ddr3_training_leveling.c:1812-2139 | status and training result are always a success; every chip-select's registers are programmed from an outcome of its own search, and with window midpoints for all connected subphys exactly when all of them have windows |
| ReadLevelingResult.RecordedValue | mv-ddr-marvell/ddr3_training_leveling.c:1990-2071 | a record holds the midpoint of its first window exactly when it has a window, otherwise the start of its last run of hits, or 0 |
| ReadLevelingResult.CentredIffFound | mv-ddr-marvell/ddr3_training_leveling.c:2084-2138 | for one chip-select: all connected subphys are programmed with midpoints exactly when all have windows |
| ReadLevelingResult.UnlockedSubphyIsProgrammedStale | mv-ddr-marvell/ddr3_training_leveling.c:2120-2137 | the word that a connected subphy without a window gets |
| ReadLevelingResult.SilentSubphysAreProgrammed | mv-ddr-marvell/ddr3_training_leveling.c:2084-2137 | with readings that never hit, all connected subphys are programmed to tap 0 |
| ReadLevelingResult.SearchEncodingPreservesDelay | mv-ddr-marvell/ddr3_training_leveling.c:1936-1954 | the search programs exactly tap i, and the log reads it back exactly when the sample fits its field |
| ReadLevelingResult.ReencodingPreservesDelay | mv-ddr-marvell/ddr3_training_leveling.c:2103-2128 | sample, phase and ADLL of post-processing add up to the value found, also for truncated division of negative differences |
| ReadLevelingResult.FinalWordInNumbers | mv-ddr-marvell/ddr3_training_leveling.c:2122-2135 | the RL word of a delay above or below the shared sample delay, for truncated division |
| ReadLevelingResult.DelaysInNumbers | mv-ddr-marvell/ddr3_training_leveling.c:2103-2116 | sample and ready delay of a chip-select in numbers |
| ReadLevelingResult.LogReadsBack | mv-ddr-marvell/ddr3_debug.c:788-808 | the logged delay equals the written one exactly when phase and sample fit their fields |
| ReadLevelingResult.LoggedDelayIsExact | mv-ddr-marvell/ddr3_training_leveling.c:2103-2137 | for a locked value the logged delay is exact exactly when the value lies less than 256 taps above the shared sample and the sample fits |
| ReadLevelingResult.LateWindowIsNotLogged | mv-ddr-marvell/ddr3_training_leveling.c:2103-2110 | readings whose window is found, but whose sample delay overflows its field for every CAS latency |
| ReadLevelingResult.ProgrammedDelayIsWindowMidpoint | mv-ddr-marvell/ddr3_training_leveling.c:1935-2138 | end to end: the log reads back the midpoint of the first window, exactly when the fields suffice |
| ReadLevelingResult.FullCountMeansAllLocked | mv-ddr-marvell/ddr3_training_leveling.c:2079-2084 | when the lock count is full, all connected subphys are locked exactly when no unconnected one is; without locked unconnected ones the count is full exactly when all connected ones are locked |
| ReadLevelingResult.QuietUnconnectedSubphys | mv-ddr-marvell/ddr3_training_leveling.c:2079-2084 | if unconnected subphys never read the lock position, the count is full exactly when all connected subphys are locked |
| ReadLevelingResult.UnconnectedSubphyCountedTwice | mv-ddr-marvell/ddr3_training_leveling.c:1868-1874 | for any connected and any unconnected subphy there are readings with which the sweep ends with a full count before the window of the connected one |
| ReadLevelingResult.FullCountInEveryRun | mv-ddr-marvell/ddr3_training_leveling.c:1868-2082 | in every run of a configuration a full count means that all connected subphys are locked, exactly when it does not have both connected and unconnected subphys |
| PassInterval.Interval.Init | mv-ddr-marvell/ddr3_training_bist.c:348-383 | parameters are accepted exactly when the end points and markers are in order |
| PassInterval.Interval.CountVerdicts | mv-ddr-marvell/ddr3_training_bist.c:409-417 | the counts are zero exactly for all-fail and all-pass vectors |
| PassInterval.Interval.FindRightEnd | mv-ddr-marvell/ddr3_training_bist.c:432-464 | finds the right end of the run at the marker or left of it, or shows that the searched part has none |
| PassInterval.Interval.FindLeftEnd | mv-ddr-marvell/ddr3_training_bist.c:466-480 | finds the left end of that run, or shows that the searched part passes throughout |
| PassInterval.Interval.Proc | mv-ddr-marvell/ddr3_training_bist.c:397-485 | soundness: the reported run is a maximal circular run at the marker and never the whole circle; completeness: on a mixed vector it succeeds exactly when a run is findable from the marker |
| PassInterval.RunAtMarkerIsUnique | mv-ddr-marvell/ddr3_training_bist.c:432-480 | the marker determines the reported run |
| PassInterval.VerdictsRepeat | mv-ddr-marvell/ddr3_training_bist.c:432-480 | the verdict of a tap is that of the vector, repeated after its size |
| PassInterval.NothingOnTheRight | mv-ddr-marvell/ddr3_training_bist.c:443-461 | the first two failure exits are taken only when no run is findable |
| PassInterval.NothingOnTheLeft | mv-ddr-marvell/ddr3_training_bist.c:475-478 | the third failure exit is taken only when no run is findable |
| PassInterval.FoundIsFindable | mv-ddr-marvell/ddr3_training_bist.c:479-484 | success happens only when a run is findable |
| PassInterval.DmToDqDiff | mv-ddr-marvell/ddr3_training_bist.c:488-513 | differences are returned exactly for ordered limits and a findable partial run, and span exactly that run; the no-fail exit is taken exactly for all-pass vectors |
| PerBitSkew.EbaPup | mv-ddr-marvell/ddr3_training_pbs.c:178-264 | state 3, 1 or 4 by the first unusable bit; in state 3 the extremes are those of the locked taps and the shift is one past the last (reading) or one before the first (writing) |
| PerBitSkew.EebaPup | mv-ddr-marvell/ddr3_training_pbs.c:266-423 | state 4 with lock exactly when all bits are usable, otherwise state 2; the shift as in EBA |
| PerBitSkew.SkewPup | mv-ddr-marvell/ddr3_training_pbs.c:491-548 | all bits locked: their taps with exact extremes; otherwise SBA with reset extremes |
| PerBitSkew.SbaShiftPup | mv-ddr-marvell/ddr3_training_pbs.c:569-697 | lock exactly when all eight bits lock, otherwise failure |
| PerBitSkew.SbaSkewPup | mv-ddr-marvell/ddr3_training_pbs.c:718-783 | every bit gets its tap or 0x1f, the minimum covers them, and the maximum is the one that bits without lock reset |
| PerBitSkew.NormPup | mv-ddr-marvell/ddr3_training_pbs.c:797-837 | normalised skews are 8-bit distances from the minimum, or 0 without lock |
| PerBitSkew.SmallestIsZero | mv-ddr-marvell/ddr3_training_pbs.c:822-828 | normalised skews are the distances from the recorded minimum, and one is 0 exactly when some tap is at most 0x1f |
| PerBitSkew.SkewTapInNumbers | mv-ddr-marvell/ddr3_training_pbs.c:718-783 | the skew tap of a bit from its raw result |
| PerBitSkew.UsableInNumbers | mv-ddr-marvell/ddr3_training_pbs.c:211-229 | which raw results are usable for a shift |
| PerBitSkew.ReadShiftInNumbers | mv-ddr-marvell/ddr3_training_pbs.c:230-262 | reading: the shift is one tap above the largest raw tap |
| PerBitSkew.WriteShiftInNumbers | mv-ddr-marvell/ddr3_training_pbs.c:230-262 | writing: the shift is one tap below the smallest raw tap |
| PerBitSkew.TapZeroWraps | mv-ddr-marvell/ddr3_training_pbs.c:230-262 | what a written tap 0 does to the extremes |
| PerBitSkew.SbaMaxCovers | mv-ddr-marvell/ddr3_training_pbs.c:742-775 | the maximum of SBA is the largest tap from the last bit without lock on |
| PerBitSkew.MaxKeptExactly | mv-ddr-marvell/ddr3_training_pbs.c:742-775 | it covers all bits exactly when every tap above 0x1f before a bit without lock is reached again after it |
| PerBitSkew.LateTapsExample | mv-ddr-marvell/ddr3_training_pbs.c:530-545 | written taps of 40 leave no normalised skew at 0 |
| PerBitSkew.ResetAfterLateExample | mv-ddr-marvell/ddr3_training_pbs.c:742-775 | readings for which the recorded maximum is below a tap |
| PerBitSkew.FinalStates | mv-ddr-marvell/ddr3_training_pbs.c:178-794 | every pup ends in state 1, 2, 3 or 4 |
| PerBitSkew.DifferencesPreserved | mv-ddr-marvell/ddr3_training_pbs.c:822-828 | normalising preserves all pairwise differences, for all taps, and stays within the spread when the maximum was kept |
| PerBitSkew.FailedButLocked | mv-ddr-marvell/ddr3_training_pbs.c:178-697 | a failed pup counts as locked exactly when EBA broke and the SBA shift locked, and then all its skews are 225 |
| PerBitSkew.FailedButLockedExample | mv-ddr-marvell/ddr3_training_pbs.c:822-828 | readings of that kind, in both modes |
| PerBitSkew.Clean | mv-ddr-marvell/ddr3_training_pbs.c:1082-1104 | the first twelve skew registers of the mode are zero, all others unchanged |
| PerBitSkew.WriteSkews | mv-ddr-marvell/ddr3_training_pbs.c:852-930 | the register of each pad holds the skew of the last bit mapped to it, the strobe registers half the spread of writing and of the reading stage before, all others are unchanged |
| PerBitSkew.BlocksAreDisjoint | mv-ddr-marvell/ddr3_training_pbs.c:867-925 | the skew registers of the modes and chip-selects lie apart, with the strobes at their places 4 and 5 |
| PerBitSkew.SkewAddresses | mv-ddr-marvell/ddr3_training_pbs.c:867-869 | the addresses of the skew registers |
| PerBitSkew.StrobesHalveTheSpread | mv-ddr-marvell/ddr3_training_pbs.c:888-933 | the strobe registers after writing, and the stored value after reading, are half the distance between the largest and the smallest tap of the readings |
| PerBitSkew.FailedStrobes | mv-ddr-marvell/ddr3_training_pbs.c:888-933 | the strobe values of a failed pup |
| PerBitSkew.PadHoldsSkew | mv-ddr-marvell/ddr3_training_pbs.c:859-875 | with distinct pads that are no strobes, the register of every pad holds the skew of its bit after the calibration |
| PerBitSkew.PadsKeepDifferences | mv-ddr-marvell/ddr3_training_pbs.c:822-875 | so these registers keep all pairwise differences of the calibrated taps |
| PerBitSkew.Pbs.CleanAll | mv-ddr-marvell/ddr3_training_pbs.c:839-840 | every pup is cleaned, also the inactive ones |
| PerBitSkew.Pbs.WriteAll | mv-ddr-marvell/ddr3_training_pbs.c:842-942 | exactly the active pups get their results; without a pad map nothing is written and the stage fails |
| PerBitSkew.Pbs.ShiftAll | mv-ddr-marvell/ddr3_training_pbs.c:178-423 | after EBA and EEBA every active pup has the state and shift that its readings decide |
| PerBitSkew.Pbs.SkewAll | mv-ddr-marvell/ddr3_training_pbs.c:462-548 | after the skew search every active pup is done or waits for SBA with reset extremes |
| PerBitSkew.Pbs.AllPupsLocked | mv-ddr-marvell/ddr3_training_pbs.c:550-558 | true exactly when every active pup is locked |
| PerBitSkew.Pbs.SbaShiftAll | mv-ddr-marvell/ddr3_training_pbs.c:570-697 | exactly the active pups without lock are shifted, and their strobe and broadcast skew registers are zeroed |
| PerBitSkew.Pbs.SbaAll | mv-ddr-marvell/ddr3_training_pbs.c:560-794 | SBA leads every active pup to its final state and zeroes those registers; locked pups are untouched |
| PerBitSkew.Pbs.NormAll | mv-ddr-marvell/ddr3_training_pbs.c:797-837 | all active pups end calibrated; training is marked failed exactly when one is not locked |
| PerBitSkew.Pbs.NoPupFailed | mv-ddr-marvell/ddr3_training_pbs.c:972-985 | success exactly when no active pup is in state 1 |
| PerBitSkew.Pbs.Run | mv-ddr-marvell/ddr3_training_pbs.c:128-986 | final states and skews of all active pups as their readings decide, all sixteen skew registers of the mode of every pup (results, strobes, zeros, the broadcast register after SBA, the rest unchanged), the return value, the training result, and the restored register |
| AdllValues.CellsAreDistinct | mv-ddr-marvell/ddr3_debug.c:907-909 | distinct buses have distinct cells within the flat array |
| AdllValues.CellsAreConsecutive | mv-ddr-marvell/ddr3_debug.c:907-909 | the order of interfaces and buses in the flat array |
| AdllValues.ReadAdllValue | mv-ddr-marvell/ddr3_debug.c:884-915 | the flat array holds the register of every active bus |
| AdllValues.WriteAdllValue | mv-ddr-marvell/ddr3_debug.c:920-948 | every active bus gets its value from the array, all other registers are unchanged |
| TrainingWrapper.CellsAreDistinct | mv-ddr-marvell/ddr3_training_ip_engine.c:543-554 | every result word has its own place within the buffer, for any number of interfaces and buses |
| TrainingWrapper.BufferIsConsecutive | mv-ddr-marvell/ddr3_training_ip_engine.c:543-554 | the order of directions, interfaces, bytes and bits in the buffer |
| TrainingWrapper.GuardsAreExclusive | mv-ddr-marvell/ddr3_training_ip_engine.c:1436-1486 | the four class guards exclude each other for all edges; exactly the inverted edges meet none |
| TrainingWrapper.ClassifyBit | mv-ddr-marvell/ddr3_training_ip_engine.c:1432-1486 | a locked bit adds the flag, state and edges of its class and changes no other bit |
| TrainingWrapper.ClassifyByte | mv-ddr-marvell/ddr3_training_ip_engine.c:1402-1498 | a fully locked byte's status is the union of its bits' class flags, any unlocked bit makes it undefined |
| TrainingWrapper.StoreMiddle | mv-ddr-marvell/ddr3_training_ip_engine.c:1522-1539 | the middle search replaces exactly the words and edges of wrapped-around bits |
| TrainingWrapper.WrappedBitIsSearchedAgain | mv-ddr-marvell/ddr3_training_ip_engine.c:1522-1575 | the final taps and locks of a wrapped-around bit from the raw words of the middle search |
| TrainingWrapper.CenterSpread | mv-ddr-marvell/ddr3_training_ip_engine.c:1587-1617 | the spread is the distance between the largest and smallest centre |
| TrainingWrapper.CentersInNumbers | mv-ddr-marvell/ddr3_training_ip_engine.c:1587-1600 | the centre of every bit from its raw taps |
| TrainingWrapper.AlignByte | mv-ddr-marvell/ddr3_training_ip_engine.c:1660-1669 | both words of every low bit go up by 64, all others are kept |
| TrainingWrapper.StoreOne | mv-ddr-marvell/ddr3_training_ip_engine.c:543-554 | storing a word in the flat buffer changes no other word |
| TrainingWrapper.AlignInBuffer | mv-ddr-marvell/ddr3_training_ip_engine.c:1660-1669 | in place in the flat buffer, exactly the low bits of the byte move, in both search directions |
| TrainingWrapper.BufferIsAligned | mv-ddr-marvell/ddr3_training_ip_engine.c:1660-1669 | so the byte is aligned as `AlignByte` does it and all other bytes of all interfaces keep their words |
| TrainingWrapper.FinalStatusIsDefined | mv-ddr-marvell/ddr3_training_ip_engine.c:1631-1671 | the final status is one of the six defined values, never a mixture |
| TrainingWrapper.HomogeneousByte | mv-ddr-marvell/ddr3_training_ip_engine.c:1631-1640 | status and words of a byte whose bits are of one class |
| TrainingWrapper.MixedByte | mv-ddr-marvell/ddr3_training_ip_engine.c:1631-1655 | the status of a byte with bits of two classes, by the distance of its centres |
| TrainingWrapper.UnlockedByteStays | mv-ddr-marvell/ddr3_training_ip_engine.c:1487-1498 | a byte with an unlocked word ends undefined with its words as they were |
| TrainingWrapper.ReadByteStays | mv-ddr-marvell/ddr3_training_ip_engine.c:1432-1436 | a fully locked byte that was read keeps its words and ends as low |
| TrainingWrapper.AlignmentKeepsWindows | mv-ddr-marvell/ddr3_training_ip_engine.c:1653-1670 | aligned windows keep width and lock, other bits keep their words |
| TrainingWrapper.AlignmentWithoutMiddleSearch | mv-ddr-marvell/ddr3_training_ip_engine.c:1502-1504 | low and high bits 32 taps apart need alignment although nothing is wrapped around |
| TrainingWrapper.AlignedWithoutMiddleSearch | mv-ddr-marvell/ddr3_training_ip_engine.c:1653-1669 | the words of such a byte after the alignment |
| TrainingWrapper.AlignmentWithoutMiddleSearchExample | mv-ddr-marvell/ddr3_training_ip_engine.c:1653-1664 | a concrete byte of that kind |
| TrainingWrapper.Engine.Classify | mv-ddr-marvell/ddr3_training_ip_engine.c:1395-1499 | phase 1 of all active bytes, and whether a wrapped-around bit was seen |
| TrainingWrapper.Engine.SearchMiddle | mv-ddr-marvell/ddr3_training_ip_engine.c:1502-1578 | phase 2 changes only defined active bytes |
| TrainingWrapper.Engine.Resolve | mv-ddr-marvell/ddr3_training_ip_engine.c:1631-1671 | the last pass resolves mixed bytes only, and when it meets an unset pointer |
| TrainingWrapper.Engine.Run | mv-ddr-marvell/ddr3_training_ip_engine.c:1326-1675 | final status and words of every byte as its own results decide, nothing else changes, and the exact condition of the unset pointer |
| Centralization.BufMin | mv-ddr-marvell/ddr3_training.c:2873-2884 | the smallest of the eight values |
| Centralization.BufMax | mv-ddr-marvell/ddr3_training.c:2889-2900 | the largest of the eight values |
| Centralization.IsPupLock | mv-ddr-marvell/ddr3_training.c:2850-2868 | true exactly when all bits are locked |
| Centralization.FixEnds | mv-ddr-marvell/ddr3_training_centralization.c:319-348 | an unlocked pattern is usable exactly when every bit found its start but not its end, which then is the end of the range |
| Centralization.StepBus | mv-ddr-marvell/ddr3_training_centralization.c:267-439 | the bus holds the exact intersection of the windows that count, its state says whether a pattern failed, and the window check fails exactly for windows that are not accepted |
| Centralization.AcceptedReading | mv-ddr-marvell/ddr3_training_centralization.c:101-106 | the accepted read windows in taps |
| Centralization.AcceptedWriting | mv-ddr-marvell/ddr3_training_centralization.c:101-106 | the accepted written windows in taps |
| Centralization.EndInNumbers | mv-ddr-marvell/ddr3_training_centralization.c:319-348 | the end that counts for a bit, locked or not |
| Centralization.CommonTapsAreAccepted | mv-ddr-marvell/ddr3_training_centralization.c:404-439 | with seven taps in common the window after every pattern is accepted |
| Centralization.Centralizer.Sweep | mv-ddr-marvell/ddr3_training_centralization.c:200-442 | all buses follow their patterns; the early exit is taken exactly when some window is not accepted, and marks its bus as failed |
| Centralization.ProgramBus | mv-ddr-marvell/ddr3_training_centralization.c:454-567 | midpoint, recorded length and state of a bus that has not failed; state 3 is unreachable |
| Centralization.Centralizer.Program | mv-ddr-marvell/ddr3_training_centralization.c:444-575 | exactly the buses that have not failed are programmed |
| Centralization.Centralizer.Run | mv-ddr-marvell/ddr3_training_centralization.c:151-587 | without early exit a bus fails exactly when a pattern fails on it, every other bus is centred in the intersection; no early exit when every active bus has seven taps in common in all its windows |
| Centralization.ReadMidpointIsGood | mv-ddr-marvell/ddr3_training_centralization.c:404-439 | reading: the window has at least two taps and the programmed tap lies in every bit's window of every pattern |
| Centralization.UncheckedMidpoint | mv-ddr-marvell/ddr3_training_centralization.c:521-525 | with the window check off the midpoint lies in all windows exactly when they intersect |
| Centralization.MidpointModuloPeriod | mv-ddr-marvell/ddr3_training_centralization.c:522-525 | writing: the programmed tap is the midpoint modulo the period |
| Centralization.MidpointInNumbers | mv-ddr-marvell/ddr3_training_centralization.c:522-525 | the programmed tap in numbers, in both modes |
| Centralization.MidpointOfIntersection | mv-ddr-marvell/ddr3_training_centralization.c:521-525 | in both modes the midpoint lies in all windows exactly when they intersect |
| Centralization.WriteMidpointIsGood | mv-ddr-marvell/ddr3_training_centralization.c:404-439 | writing: with the check on, the midpoint lies in every window of every pattern exactly unless the window ends at tap 63 and starts beyond it |
| Centralization.DisjointWindowsAreAccepted | mv-ddr-marvell/ddr3_training_centralization.c:404-439 | disjoint windows that the check accepts |
| Centralization.DisjointWindowsAreReached | mv-ddr-marvell/ddr3_training_centralization.c:267-280 | search results that the wrapper, without meeting an unset pointer, aligns into exactly these windows |
| Centralization.LengthReadsBack | mv-ddr-marvell/ddr3_training_centralization.c:531-554 | a recorded length reads back exactly when it fits five bits, and what each store does to the other field |
| Centralization.RecordedReading | mv-ddr-marvell/ddr3_training_centralization.c:541-554 | the bits that recording a read window leaves in the register |
| Centralization.RecordedWriting | mv-ddr-marvell/ddr3_training_centralization.c:531-540 | the bits that recording a written window leaves in the register |
| Centralization.FullWindowReadsAsZero | mv-ddr-marvell/ddr3_training_hw_algo.c:216-222 | the full read window reads back as 0 |
| VrefSearch.SelectKeepsUpperBits | mv-ddr-marvell/ddr3_training_hw_algo.c:295-299 | selecting a reference keeps the upper register bits |
| VrefSearch.SelectsNext | mv-ddr-marvell/ddr3_training_hw_algo.c:244-246 | index i selects reference (i + 1) modulo 8 and keeps the upper bits |
| VrefSearch.ReadingRange | mv-ddr-marvell/ddr3_training_hw_algo.c:204-224 | what the first four pups and the others read |
| VrefSearch.StepPup | mv-ddr-marvell/ddr3_training_hw_algo.c:375-688 | one round leads from the state that the windows so far decide to the next; the coarse search only sees indices 0, 3 and 6 |
| VrefSearch.FinalIndexWasVisited | mv-ddr-marvell/ddr3_training_hw_algo.c:314-690 | three to five rounds, all indices at most 7, and the final index was the current one in an earlier round |
| VrefSearch.MeasuredExactly | mv-ddr-marvell/ddr3_training_hw_algo.c:324-344 | a round is measured exactly when not exactly four pups have converged before it |
| VrefSearch.FirstRounds | mv-ddr-marvell/ddr3_training_hw_algo.c:316-344 | the first three rounds are always measured, the fourth unless exactly four pups have converged after three |
| VrefSearch.FinalIndexWasMeasured | mv-ddr-marvell/ddr3_training_hw_algo.c:314-690 | the final index was measured, exactly unless it is 5 or 7 and exactly four pups converged after three rounds |
| VrefSearch.FewPupsAreAlwaysMeasured | mv-ddr-marvell/ddr3_training_hw_algo.c:324-344 | with at most four searched pups every pup is measured in each of its rounds and keeps the index that its own windows decide |
| VrefSearch.MeasuredInEveryRun | mv-ddr-marvell/ddr3_training_hw_algo.c:324-344 | all final indices are measured in every run exactly when at most four pups are searched |
| VrefSearch.OthersAreNotMeasured | mv-ddr-marvell/ddr3_training_hw_algo.c:324-344 | lengths that make any four searched pups early, so that every other one keeps the unmeasured index 7 |
| VrefSearch.FifthPupIsNotMeasured | mv-ddr-marvell/ddr3_training_hw_algo.c:324-344 | such an input with five lanes |
| VrefSearch.IndicesAreDistinct | mv-ddr-marvell/ddr3_training_hw_algo.c:363-690 | no index is measured twice |
| VrefSearch.KeepsTheWidestExactly | mv-ddr-marvell/ddr3_training_hw_algo.c:383-686 | for all windows, the exact condition under which no visited window is wider by more than 200 than that of the kept index |
| VrefSearch.KeepsTheNarrowest | mv-ddr-marvell/ddr3_training_hw_algo.c:487-560 | lengths with which the narrowest window, 0, is kept |
| VrefSearch.AverageStep | mv-ddr-marvell/ddr3_training_hw_algo.c:336-340 | one repetition takes the 16-bit running average to the next |
| VrefSearch.AverageIsExact | mv-ddr-marvell/ddr3_training_hw_algo.c:112-113 | the running average of three bytes is the exact one precisely when none of its steps leaves 16 bits |
| VrefSearch.WindowIsMean | mv-ddr-marvell/ddr3_training_hw_algo.c:336-340 | the window of the first four pups is always the exact average |
| VrefSearch.WrappedWindowDecides | mv-ddr-marvell/ddr3_training_hw_algo.c:336-340 | lengths for which the wrapped window of the fifth pup decides another index than the exact average |
| VrefSearch.Search.Start | mv-ddr-marvell/ddr3_training_hw_algo.c:272-309 | wide pups are left alone, all others start at index 0 |
| VrefSearch.Search.Measure | mv-ddr-marvell/ddr3_training_hw_algo.c:316-344 | every pup still searching gets the running average of its three measurements, or keeps its window when exactly four pups have converged; nothing else changes |
| VrefSearch.Search.Compare | mv-ddr-marvell/ddr3_training_hw_algo.c:363-689 | every pup still searching takes its step, and the counters count the converged pups |
| VrefSearch.Search.Run | mv-ddr-marvell/ddr3_training_hw_algo.c:238-715 | for any number of lanes: ten rounds; all searched active pups converge on the index their compared windows decide with the upper register bits kept, wide pups keep their register and inactive ones are left at index 0 |
| WriteLevelingSupp.ShiftMovesPhase | mv-ddr-marvell/ddr3_training_leveling.c:1396-1445 | a tried shift moves the phase by its offset within 0..7 and keeps the other bits, or clears phase and ADLL from phase 1 |
| WriteLevelingSupp.TriedPhases | mv-ddr-marvell/ddr3_training_leveling.c:1390-1445 | which phases are tried, and in which order, in numbers |
| WriteLevelingSupp.AlignPhaseShift | mv-ddr-marvell/ddr3_training_leveling.c:1379-1454 | success keeps the first shift that passes, failure restores the register |
| WriteLevelingSupp.SuppBus | mv-ddr-marvell/ddr3_training_leveling.c:1278-1355 | the first of three data delays with a passing shift, or failure of all with the register restored |
| WriteLevelingSupp.DelaysInNumbers | mv-ddr-marvell/ddr3_training_leveling.c:1299-1350 | the data delay after each attempt and after failure, in numbers |
| WriteLevelingSupp.Supplement.Run | mv-ddr-marvell/ddr3_training_leveling.c:1266-1374 | the interface fails exactly when some active bus fails all attempts; the fail flag says so per bus |
| FrequencySwitch.CodesInNumbers | mv-ddr-marvell/ddr3_training_db.c:394-430 | the latency codes in numbers |
| FrequencySwitch.SafetyMeans | mv-ddr-marvell/ddr3_training.c:1460-1695 | what safety says about each step of a run |
| FrequencySwitch.Dunit.EnterSwitch | mv-ddr-marvell/ddr3_training.c:1460-1561 | the divider is programmed once, blocked and in self-refresh, and the latency codes of the interface are set |
| FrequencySwitch.Dunit.SwitchInterface | mv-ddr-marvell/ddr3_training.c:1460-1715 | the divider and the latencies of the interface are set, and on success the DFS register and the mode registers hold its codes, with the block released after self-refresh |
| FrequencySwitch.Dunit.FreqSet | mv-ddr-marvell/ddr3_training.c:1404-1760 | every run over any number of interfaces is safe; on success the dividers and the latency codes of exactly the active interfaces were set, in order, and the registers hold those of the last one, with DLL and termination as requested; when it succeeds |
| ChipSelectMask.AgreeMeansCommon | mv-ddr-marvell/ddr3_training_leveling.c:866-888 | "or" and "and" agree exactly when the active buses have one common four-bit mask |
| ChipSelectMask.CalcCsMask | mv-ddr-marvell/ddr3_training_leveling.c:856-892 | with a common mask only the effective chip-select can be low, and is low exactly when present; otherwise every present one is low |
| PhyAccess.MergedBits | mv-ddr-marvell/ddr3_training.c:1267 | any bits under the mask come from the data, any bits outside it from the register |
| PhyAccess.BusReadModifyWrite | mv-ddr-marvell/ddr3_training.c:1246-1275 | every active interface is merged with the original data although the data variable is overwritten, inactive ones are unchanged |

## Left out

- Register access, delays, triggering and polling of the hardware: inputs of the model.
- DDR4 branches, printing and logging, pattern and speed tables: no search logic.
- ddr3_tip_set_timing, ODT timing and the driver-strength tables: arithmetic on tables.
- The register writes of each search step of read leveling: only their encoding is modelled (`SearchEncodingPreservesDelay`).
- ReadLevelingResult.RlDqsBurst: does not model the additional ODT setting and the FIFO resets at its end, because they do not touch the delays.
- PerBitSkew.Pbs.Run: does not model the tap-to-picosecond factor, which scales the results, and the reset of register 0x1a or 0x5a at an index behind the last pup.
- PerBitSkew.Pbs.CleanAll: does not model the pup behind the last one, which is cleaned as well.
- TrainingWrapper.Engine.Run: does not model per-byte results, for which no bit is examined and every byte stays undefined, and keeps each bit's two words together; that the alignment does the same in place in the flat buffer is proved separately (`AlignInBuffer`, `BufferIsAligned`).
- Centralization.Centralizer.Run: does not model the two result arrays that have eight entries for each interface, so that a ninth bus is written outside them.
- Centralization.Centralizer.Sweep: does not model the debug mode that goes on after a window that is not accepted, because it only serves debugging.
- FrequencySwitch.Dunit.FreqSet: does not model the write recovery and timing registers and the polling results, because a failed poll is only logged.
- Early returns on failed register accesses in all components.
