# keep-at: a verified model

keep-at is a daemon that decides which torrents of a catalog to hold and seed on a host with limited disk and
RAM. This project models the parts of it whose correctness spans many functions and whole runs, and proves what
they promise. `dafny verify dfyconfig.toml` checks everything.

## What is modelled

**The holdings engine.** `Holdings` has the books (the held map, the quarantine registry, the event ledger), the
eight operations that change them, and `Lawful`: what the code asks before each. `Resources` and `Guarantees`
prove what every run of lawful operations keeps: the three resources, a ledger that replays to the held set,
cooldowns, attempts, the grace window, displacement chains. `Displacement` is the greedy choice of what makes
way; `Acting` is the decision for one candidate and for a scan's arrivals in any order; `Entries` and `Windows`
say who enters, when, where and at whose cost, and who is acted on, without the decision's own terms;
`Maintenance` is the collapse guard, the removal passes, the seeder refresh and the watchdog's parts; `Daemon`
puts them together into whole scans and whole watchdog passes and proves that any history of them, whatever the
world answers, is a lawful run; `Passes`, `Watchdog` and `Counts` say who leaves, is stamped, refreshed, swept,
re-armed and counted. `Engines.Engine` (over `StateFile.State`, `History.Writer` and `Quarantines.Detector`) is
the imperative engine: its methods follow the source's loops and early returns, and each ends exactly where
those functions say.

**Quarantine.** `Quarantines` has the escalation rule and the broken-swarm detector, an in-place automaton proved
equal to a statement about the whole trace of readings.

**Selection.** `Selector` has ranking, eviction order, the seed-scarcity chance, the tenth-percentile floor, the
margin and the weighted choice of a location. `Ram` prices torrents; `Sorting` is a stable sort and its laws.

**The file-handle pool.** `FilePool` and `PooledStorage` are the two-map pool with its stamp counter and the views
that route every read and write through it, over the small file system of `Files`; `Recency` is the abstract
least-recently-used list it refines.

**Logs.** `Bandwidth` is the pruned rate log, `History` the rotating ledger and the in-place log cap.

**Tracker URLs.** `TrackerUrl` is the truncation of leaky announce URLs.

Time is an integer (seconds; nanoseconds in `Bandwidth`), a hash is a number standing for its hex string (so order
is kept), a location is its rank in path order. Chances, rolls and scores are exact reals. Metadata, scrapes,
session reports, device space, descriptor headroom, random rolls, clocks and the iteration order of the hash maps
are arbitrary inputs (`Env`, `ScanInput`, `PassInput`), a fresh one for every candidate.

The ledger's text is a parameter: any codec that reads every event back on one line (`LedgerCodec` shows there is
one), with chances and rolls as the decimals they are printed as.

## Where the code differs from what is said about it

The model follows the code. Each difference is a lemma, with the exact condition under which the promise holds.

- A host whose RAM cannot be measured, with none configured, never fills free space: its count cap is off, as
  `docs/DESIGN.md` line 37 says, but its budget is zero (`UnmeasuredRamNeverFills`). For every measured and every
  configured amount, a host can fill exactly when its budget reaches the price of a typical torrent, half a
  mebibyte (`HostFillsExactly`).
- With margin 0 an equally seeded torrent is displaced; `docs/CONFIG.md` line 65 says strictly lower
  (`StrictlyLowerExactlyWithMargin`).
- Raising the collapse percent, the advice of `docs/CONFIG.md` and `docs/RECOVERY.md` for a real collapse, never
  opens the guard (`RaisingPercentNeverOpensGuard`). The guard rounds the share down, so it also trips on less
  than documented (`GuardVersusDocumentation`).
- `docs/DESIGN.md` line 48 calls eviction order the exact reverse of ranking order. Between torrents of given seeder
  counts, whatever their footprints, that holds exactly when the bias is zero and the counts differ, or the bias is
  not zero and the counts are equal (`EvictionReversesRanking`).
- The need of a torrent saturates, so a location limited by the whole 64-bit word can be passed, and no other
  (`FillsKeepDiskExactly`, and `FillKeepsDiskExactly` torrent by torrent).
- A torn last line of the ledger is skipped, as intended, but also swallows the next event appended behind it
  (`TornTailSwallowsNextEvent`); nothing else is lost ever after (`TornOpeningLosesOneEvent`).
- A tick of zero elapsed time drops the bytes counted since the previous one (`ZeroSpanTickLosesBytes`,
  `NothingLostExactlyOnMovingClock`).
- Capping a log can leave it empty (`CapEmptiesFile`).

The RAM ceiling of `docs/DESIGN.md` line 39 holds: metadata takes its piece count from the validated piece lengths
(src/attorrent.rs lines 172-179), so every torrent that enters has one, and old state without counts only makes the
held set look dearer (`HistoryKeepsRam`). Without a count, a torrent would be admitted as one piece and held as 1024;
`FillKeepsRamExactly` and `SwapRaisesRamExactly` say exactly what that would do to the budget.

## Model

| member | source | states |
|---|---|---|
| `Daemon.HistoryIsLawful` | src/engine/scan.rs:1455-1714 | any sequence of scans and watchdog passes, whatever the world answers, moves the books only by lawful operations |
| `Daemon.HistoryKeepsCount` | src/engine/scan.rs:2061-2121 | no such history holds more torrents than the cap, unless it began with more |
| `Daemon.HistoryKeepsDisk` | src/engine/scan.rs:1887-1916 | nor puts more nominal bytes and buffers on a location than its limit or what it began with, whatever the metadata, unless that limit is the whole 64-bit word; then footprints have to fit it |
| `Daemon.HistoryKeepsRam` | src/engine/scan.rs:2168-2180 | nor prices more RAM than the budget or what it began with, whatever held torrents of unknown piece count it began with |
| `Daemon.HistoryReplays` | src/engine/scan.rs:2284-2323 | the events such a history recorded replay from the hashes first held to those held at the end |
| `Daemon.HistoryCountsAttempts` | src/engine/quarantine.rs:44-68 | after any history a hash's attempts are its trips since the last lift or collection in it |
| `Daemon.HistoryKeepsTrippedOut` | src/engine/quarantine.rs:44-68 | across any scans and passes a tripped hash, until its next trip, lift or collection, enters again only past its cooldown, or past the far-future term once its retries are spent |
| `Daemon.HistorySpacesProbes` | src/engine/scan.rs:1101-1131 | across any passes two probes of a hash, with no trip, lift or collection of it between, are max(cooldown, check interval) apart |
| `Daemon.HistoryKeepsGrace` | src/engine/scan.rs:2469-2533 | what a scan removes as delisted was in the catalog of no scan confirmed within the grace window before, whatever scans and passes lie between |
| `Daemon.ScanIsLawful` | src/engine/scan.rs:1455-1714 | a whole scan is a lawful run: guarded removal, confirmation, refresh, stall eviction, acting |
| `Daemon.PassIsLawful` | src/engine/scan.rs:1139-1441 | a whole watchdog pass is a lawful run: progress, lifts, collection, re-probes, trips |
| `Daemon.CollectionDropsExactlyOrphans` | src/engine/scan.rs:1265-1295 | a pass drops exactly the entries that are lapsed, unheld, out of session and unlisted in a fetched catalog, and touches no other |
| `Daemon.PassExtendsHistory` | src/engine/scan.rs:1158-1206 | the detector after a pass is the one its whole history of calls yields |
| `Daemon.SessionTorrentTripsExactly` | src/engine/scan.rs:1158-1203 | a session torrent trips in a pass iff its reading ends a long enough stretch, over the whole history, without a verified byte and with the threshold fetched |
| `Daemon.SortedHashes` | src/engine/scan.rs:1003-1015 | the entries to probe or drop, each once, in hash order |
| `Resources.SwapNeverRaisesDisk` | src/engine/scan.rs:2335-2465 | a paid swap raises no location's use, although buffers are not credited and the need saturates |
| `Resources.EnterKeepsCount` | src/engine/scan.rs:2061-2110 | a swap never raises the held count and a fill below the cap never passes it |
| `Resources.SwapRaisesRamExactly` | src/engine/scan.rs:3008-3019 | a swap raises priced RAM iff the newcomer's held price exceeds that of the displaced; never with a piece count |
| `Resources.FillKeepsDiskExactly` | src/engine/scan.rs:1887-1916 | a fill keeps the location's limit iff its footprint fits 64 bits |
| `Resources.FillsKeepDiskExactly` | src/engine/scan.rs:1887-1916 | on a host that can fill, every fill keeps the limit of a location iff that limit is not the whole word |
| `Resources.SaturatedNeedPassesLimit` | src/engine/scan.rs:1887-1916 | a concrete torrent that an empty location limited by the word admits and that passes the limit |
| `Resources.FillKeepsRamExactly` | src/engine/scan.rs:2061-2080 | a fill keeps the budget iff it has a piece count, as metadata does, or a typical torrent fits the headroom |
| `Resources.DiskStaysWithinLimit` | src/engine/scan.rs:1887-1916 | over any lawful run a location stays within the larger of its start and its limit, under the same condition |
| `Resources.CountStaysWithinCap` | src/engine/scan.rs:2061-2121 | over any lawful run the held count stays within the larger of its start and the cap |
| `Resources.RamStaysWithinBudget` | src/engine/scan.rs:2168-2180 | over any lawful run priced RAM stays within the larger of its start and the budget |
| `Resources.CreditWithinPrice` | src/engine/scan.rs:3013 | the displaced are never credited with more RAM than removing them frees |
| `Resources.HostFillsExactly` | src/engine/ram.rs:115-132 | for every measured and configured amount, a host with disk room can fill iff its budget is half a mebibyte or more, and then at once |
| `Resources.CapIsPositiveExactly` | src/engine/ram.rs:115-132 | the count cap is positive iff the budget pays for a typical torrent or nothing was measured or configured |
| `Resources.UnmeasuredRamNeverFills` | src/engine/ram.rs:115-122 | with unmeasured RAM and none configured there is no count cap and no fill is ever admitted, whatever is held |
| `Guarantees.LedgerReplaysToHeld` | src/engine/scan.rs:1423-1439 | after any interleaving of operations the ledger has grown by events that replay to exactly the held keys |
| `Guarantees.CooldownOnlyGrows` | src/engine/scan.rs:1101-1131 | without a trip, lift or collection an entry stays, keeps its attempts, and its cooldown only moves later |
| `Guarantees.NoReturnBeforeCooldown` | src/engine/scan.rs:2190-2204 | a hash with an entry enters only once that entry's cooldown passed, and its entering takes nothing out |
| `Guarantees.TrippedHashStaysOut` | src/engine/quarantine.rs:44-68 | a tripped hash stays out for the cooldown, and for the far-future term once its retries are spent |
| `Guarantees.TripKeepsOut` | src/engine/quarantine.rs:44-68 | the same anywhere within a lawful run, until the next trip, lift or collection |
| `Guarantees.ProbesAreSpaced` | src/engine/scan.rs:1101-1131 | two probes of a hash with no trip, lift or collection between are max(cooldown, check interval) apart |
| `Guarantees.ProbesKeepApart` | src/engine/scan.rs:1101-1131 | the same anywhere within a lawful run, with no trip, lift or collection between |
| `Guarantees.AttemptsCountTrips` | src/engine/quarantine.rs:44-68 | attempts are the trips since the last lift or collection; probing never changes them |
| `Guarantees.LockoutIsByTripCount` | src/engine/quarantine.rs:44-68 | from any registry, a trip locks a hash out iff retries are limited and spent by the trips since its last reset, or since the start and those before it |
| `Guarantees.AnchorOnlyAdvances` | src/engine/scan.rs:2485-2496 | a torrent's grace anchor never falls behind a confirmation that listed it, across re-entries too |
| `Guarantees.DelistedOnlyPastGrace` | src/engine/scan.rs:2469-2533 | a torrent removed as delisted was listed by no confirmation pass of the preceding grace window |
| `Guarantees.LinkDropsSeeders` | src/engine/scan.rs:2973-2985 | what displaces an entered torrent has at least the margin fewer seeders |
| `Guarantees.ChainsAreBounded` | src/engine/scan.rs:2973-3022 | seeders fall by the margin along every displacement chain, which bounds cascades |
| `Displacement.SelectDisplaceable` | src/engine/scan.rs:2964-3022 | the saturating loop returns the shortest covering prefix of the eviction order |
| `Displacement.ShortestFrom` | src/engine/scan.rs:3008-3021 | the prefix covers both needs and no shorter one does |
| `Displacement.ChoiceIsShortestPayingPrefix` | src/engine/scan.rs:2973-3022 | what is chosen is a prefix of the sorted qualifying torrents, pays both needs, does not without its last member, and clears the margin |
| `Displacement.RefusesExactlyWhenNothingPays` | src/engine/scan.rs:2984-3021 | nothing is chosen iff no selection of qualifying torrents could pay both needs |
| `Displacement.DisplacesExactlyWhenPaid` | src/engine/scan.rs:2984-3021 | in sizes and RAM prices: something makes way iff some selection that clears the margin frees the bytes and the RAM; what does frees both, and not without its last member |
| `Displacement.ChoiceIsDrawn` | src/engine/scan.rs:2973-3022 | what is chosen is held, each once |
| `Displacement.MarginIsTheFilter` | src/selector.rs:153-159 | the swap's margin test holds iff every displaced torrent passed the filter |
| `Displacement.StrictlyLowerExactlyWithMargin` | src/engine/scan.rs:2973-2979 | only strictly better seeded torrents qualify iff the margin is positive |
| `Displacement.EvictsLowestScores` | src/engine/scan.rs:3006-3021 | no torrent that qualifies and is left behind has a lower eviction score than one chosen, and the last chosen has the highest of those chosen |
| `Displacement.EvictsLeastWanted` | src/engine/scan.rs:3006-3021 | in plain terms: with no bias the best seeded go first; with one, what stays is what ranking would rather have |
| `Displacement.CreditIsOwnPrice` | src/engine/scan.rs:3013 | a displaced torrent is credited its own price, one of unknown piece count as one piece |
| `Acting.DecisionIsLawful` | src/engine/scan.rs:1958-2163 | whatever the world answers, a candidate yields nothing or one lawful entry, and the running count still bounds the held count |
| `Acting.HeldSetsCanBeListed` | src/state.rs:103-105 | every held set can be listed, each torrent once |
| `Acting.CountStaysExact` | src/engine/scan.rs:2140-2157 | for a candidate not yet held, an exact running count stays exact |
| `Acting.LostRollEntersNothing` | src/engine/scan.rs:2043-2059 | a candidate that is not a probe and whose one roll is not below its chance enters on no path and no location |
| `Acting.EarlyReturnIsOnlyAFastPath` | src/engine/scan.rs:2111-2121 | dropping the early return after a lost roll changes no decision |
| `Acting.ChoiceFindsRoom` | src/engine/scan.rs:2076-2091 | the fill finds no location iff none has the room |
| `Acting.SwapOnlyUnderPressure` | src/engine/scan.rs:2061-2121 | below the cap, with RAM and room and a willing session, nothing is ever displaced |
| `Acting.SwapFromIsLawful` | src/engine/scan.rs:2335-2465 | whichever location takes the swap, its displaced set is held there, clears the margin and pays |
| `Entries.EntryIsTheCandidate` | src/engine/scan.rs:2284-2300 | what enters has the hash and seeders of the candidate and the size and pieces of its metadata, with no bytes verified and every stamp set to now |
| `Entries.EntryHasAPlace` | src/engine/scan.rs:2061-2110 | a fill goes to a configured location; a swap to the location of everything it displaces, all of it held |
| `Entries.EntryShowsInTheBooks` | src/engine/scan.rs:2284-2300 | afterwards exactly that torrent is held in addition and the displaced are gone; every other torrent and the registry are untouched |
| `Entries.EntryIsRecorded` | src/engine/scan.rs:2302-2322 | the ledger has one more event, with the size, seeders, location, chance, roll and floor of the entry and the displaced hashes in order |
| `Entries.DiskUsedExactly` | src/engine/scan.rs:1887-1916 | each held torrent uses its nominal size and a buffer where it is, and nothing elsewhere |
| `Entries.RamUsedExactly` | src/engine/scan.rs:2168-2180 | each is priced for its pieces, or for 1024 if their number is unknown |
| `Entries.EntersFreeSpaceExactly` | src/engine/scan.rs:1958-2110 | a candidate enters free space iff its metadata can be had, descriptors are left, no cooldown runs, count, RAM and some location and its device have room, it has a seed, its roll is won (a probe rolls nothing) and the session takes it |
| `Entries.FillHasRoom` | src/engine/scan.rs:1887-1910 | where it enters, its footprint fits beside what is held there and on the device |
| `Entries.FillGoesWhereTheRollFalls` | src/engine/scan.rs:2076-2101 | of the locations with room the one is filled that the roll for the location chooses, each weighted by the space left on it |
| `Entries.EntersBySwapExactly` | src/engine/scan.rs:2111-2163 | it displaces others iff it can be tried, has no registry entry, free space does not take it, its one roll is won and some location can pay; then at the first that can, in path order, by the greedy choice there |
| `Entries.SwapsExactlyWherePaid` | src/engine/scan.rs:2335-2465 | one location takes a swap iff a selection there covers both needs, the device has the footprint once it is gone, the roll is won and the session takes the newcomer |
| `Acting.ActAllStaysOnCourse` | src/engine/scan.rs:1918-1956 | acting on any candidates in any order is a lawful run with a sound running count |
| `Acting.WindowActsOnEach` | src/engine/scan.rs:1944-1954 | a window acts on exactly those of its hashes not acted on before |
| `Acting.ScanCoversTopWindow` | src/engine/scan.rs:1609-1714 | for every arrival order and count a scan acts once on each hash of the final top window and twice on none |
| `Windows.ActsOnTheTop` | src/engine/scan.rs:1942-1954 | each time a batch of sixteen is full, and at the end, each of the first `maxTorrents` of the ranking of the arrivals so far has been acted on |
| `Windows.ActsOnNoOther` | src/engine/scan.rs:1942-1954 | no candidate is acted on that did not stand there at such a moment |
| `Windows.ActsInRankingOrder` | src/engine/scan.rs:1944-1954 | what one window newly acts on it acts on in ranking order, and between windows nothing is acted on |
| `Maintenance.GuardVersusDocumentation` | src/engine/scan.rs:1501-1505 | the guard implies the documented one, and misses it exactly at the rounded-down share |
| `Maintenance.RaisingPercentNeverOpensGuard` | src/engine/scan.rs:1494-1505 | a tripped guard stays tripped at any higher percent and opens at 0 |
| `Maintenance.SurvivorsMeetGuard` | src/engine/scan.rs:1501-1517 | the removal pass takes nothing, or leaves at least the guarded share and one |
| `Maintenance.LeaveTogether` | src/engine/scan.rs:2508-2528 | removals one by one take out exactly the condemned, lawfully |
| `Maintenance.ConfirmIsOneStep` | src/engine/scan.rs:1525-1544 | the batched stamps are the confirmation of every listed torrent |
| `Maintenance.RefreshIsRun` | src/engine/scan.rs:2535-2591 | the batched refresh is one lawful operation a scraped torrent |
| `Maintenance.SweepExtendsHistory` | src/engine/scan.rs:1158-1203 | the sweep leaves the detector as its history of calls yields |
| `Maintenance.SweepLiftsFinished` | src/engine/scan.rs:1165-1181 | the sweep lifts exactly the registered hashes reported finished |
| `Maintenance.RaceLiftsAreComplete` | src/state.rs:68-70 | the race catch lifts exactly the held, registered hashes whose verified bytes cover a positive size |
| `Maintenance.CollectIsRun` | src/engine/scan.rs:1265-1295 | collection is lawful and leaves every other entry as it was |
| `Maintenance.ProbeAllOnCourse` | src/engine/scan.rs:1036-1131 | re-probes are a lawful run that re-arms only lapsed entries |
| `Passes.DelistedLeaveExactly` | src/engine/scan.rs:1501-1517 | a held torrent leaves as delisted iff removal is on, enough of the held set is listed, it is not, and the grace window has passed since its last confirmation or its arrival; the others are unchanged |
| `Passes.DelistedAreRecorded` | src/engine/scan.rs:2508-2528 | one event for each torrent the removal pass takes, with its size, seeders and location, and no other |
| `Passes.ConfirmedExactly` | src/engine/scan.rs:1518-1548 | exactly the listed torrents are stamped, and no stamp moves back |
| `Passes.RefreshedExactly` | src/engine/scan.rs:2535-2591 | exactly the torrents with an answer take its seeders, and its progress with a new clock only where verified bytes grew or were never stamped |
| `Passes.StalledLeaveExactly` | src/engine/scan.rs:2605-2708 | a held torrent leaves as stalled iff the eviction is on, it is listed, its progress was stamped at least the timeout ago, and it is neither checking nor finished nor complete; the others are unchanged |
| `Passes.StalledAreRecorded` | src/engine/scan.rs:2660-2708 | one event for each torrent the eviction takes, and no other |
| `Watchdog.SweepReportsProgress` | src/engine/scan.rs:1182-1203 | progress is reported for exactly the live, unfinished torrents with verified bytes, and is those bytes |
| `Watchdog.SweepSees` | src/engine/scan.rs:1158-1164 | seen is exactly what the session holds |
| `Watchdog.SweepTripsAreReadings` | src/engine/scan.rs:1182-1203 | the trips are exactly the verdicts on the readings of live, unfinished session torrents |
| `Watchdog.PassReprobesExactly` | src/engine/scan.rs:998-1131 | a pass re-arms exactly the entries past their cooldown, unheld, in the catalog last fetched or else loaded, with metadata and a scrape; every other entry is unchanged |
| `Watchdog.ProbeOneExactly` | src/engine/scan.rs:1036-1131 | a probe enters nothing but its own hash, with the seeders its scrape found, and re-arms only its own entry |
| `Watchdog.TripExactly` | src/engine/scan.rs:1319-1441 | a trip takes out that torrent, counts one attempt more, stamps the entry now, and records the departure of a held one |
| `Watchdog.TripsTakeExactly` | src/engine/scan.rs:1319-1441 | the trips of a pass take out and enter exactly the hashes they name |
| `Counts.ScanCountsExactly` | src/engine/scan.rs:1918-1956 | a scan whose arrivals were not held ends with a running count that is exactly what it holds |
| `Counts.PassCountsExactly` | src/engine/scan.rs:1044-1101 | so do the re-probes of a pass, whatever is due |
| `StateFile.State.Put` | src/state.rs:111-114 | the torrent is stored under its hash and nothing else moves |
| `StateFile.State.Remove` | src/state.rs:130-133 | the hash leaves the held map and nothing else moves |
| `StateFile.State.QuarantineAndRemove` | src/state.rs:164-168 | the entry is stored and the torrent leaves in one step |
| `StateFile.State.QuarantineRemoveMany` | src/state.rs:172-183 | exactly the named entries leave, and their number is returned |
| `StateFile.State.LiftCompleted` | src/state.rs:201-210 | an entry is lifted iff it exists and the verified bytes cover a positive size |
| `StateFile.State.UpdateEach` | src/state.rs:225-236 | the batch applies each update in order to the torrents held, ignoring unknown hashes |
| `StateFile.State.UpdateProgressMany` | src/state.rs:245-265 | progress moves the clock only where verified bytes grew or were never stamped |
| `StateFile.UpdatedEach` | src/state.rs:225-236 | with one update a hash, each torrent has exactly its own update |
| `StateFile.ProgressIsRefreshes` | src/state.rs:245-265 | the progress batch is a lawful run |
| `StateFile.WithoutHashesKeeps` | src/state.rs:172-183 | what remains is what was not named, unchanged |
| `Engines.Engine.RamHeadroomBytes` | src/engine/scan.rs:2168-2180 | the saturating loop returns the budget less the priced held set |
| `Engines.Engine.FreeBytes` | src/engine/scan.rs:1887-1910 | the loop returns the limit less nominal sizes and buffers, at most the device's free space |
| `Engines.Engine.AddTorrent` | src/engine/scan.rs:2220-2326 | on a won roll and a willing session the torrent is stored and one Add recorded, otherwise nothing changes |
| `Engines.Engine.FillFreeSpace` | src/engine/scan.rs:2061-2110 | the fill does exactly what the decision says, to state and ledger |
| `Engines.Engine.TrySwap` | src/engine/scan.rs:2335-2465 | the first location that pays and passes takes the swap; the displaced leave |
| `Engines.Engine.ActOnCandidate` | src/engine/scan.rs:1958-2163 | state, ledger and running count end where the decision for the candidate says |
| `Engines.Engine.ActOnWindowed` | src/engine/scan.rs:1918-1956 | the acted set and the books end where acting on the window's new hashes leads |
| `Engines.Engine.ConsumeArrivals` | src/engine/scan.rs:1599-1714 | the whole consuming loop acts on exactly the windows of its batches and the unfinished one |
| `Engines.Engine.RemoveVanished` | src/engine/scan.rs:1501-1517 | the guarded pass removes exactly the delisted past their grace |
| `Engines.Engine.RemoveDeletedTorrents` | src/engine/scan.rs:2469-2533 | the loop removes and records exactly the delisted past their grace |
| `Engines.Engine.ConfirmSurvivors` | src/engine/scan.rs:1518-1548 | every listed held torrent is stamped |
| `Engines.Engine.RefreshHeldSeederCounts` | src/engine/scan.rs:2535-2591 | every scraped torrent has its seeders and progress |
| `Engines.Engine.EvictStalledTorrents` | src/engine/scan.rs:2605-2708 | the loop removes and records exactly the listed, incomplete, stalled torrents |
| `Engines.Engine.ScanOnce` | src/engine/scan.rs:1455-1714 | a scan leaves the books exactly where its input leads |
| `Engines.Engine.SweepSession` | src/engine/scan.rs:1158-1203 | the sweep's five results are those of the fold over the session |
| `Engines.Engine.LiftAndCollect` | src/engine/scan.rs:1212-1295 | progress, lifts and collection leave the books where the pass says |
| `Engines.Engine.Reprobe` | src/engine/scan.rs:998-1132 | lapsed, unheld, listed hashes are acted on in order and re-armed; the catalog is loaded only when needed |
| `Engines.Engine.EnforceTrips` | src/engine/scan.rs:1319-1441 | every trip, tracked or ghost, is entered, and the torrent removed, recorded and forgotten |
| `Engines.Engine.QuarantinePass` | src/engine/scan.rs:1139-1441 | a pass leaves books, detector and catalog exactly where its input leads |
| `Engines.Boot` | src/engine/scan.rs:700-735 | a start over any state and any ledger files yields a working engine |
| `LedgerCodec.EventsCanBeWritten` | src/history.rs:88-116 | there is a text for every event that reads back as it and stays unreadable when cut short, so the conditions on the codec can be met |
| `Quarantines.EscalatesExactlyPastRetries` | src/engine/quarantine.rs:30-68 | a trip counts one attempt, stamps the entry and what was wasted, and sets the cooldown from now, or the far-future term iff the retries are limited and spent (or the calendar ends) |
| `Quarantines.Detector.Observe` | src/engine/quarantine.rs:111-165 | the in-place step is the automaton's, and its verdict the rule's |
| `Quarantines.Detector.Forget` | src/engine/quarantine.rs:168-170 | only that hash is dropped |
| `Quarantines.Detector.RetainOnly` | src/engine/quarantine.rs:178-180 | exactly the unobserved are dropped |
| `Quarantines.InterleavingIsIrrelevant` | src/engine/quarantine.rs:111-180 | a hash's state depends on its own readings and gaps alone |
| `Quarantines.AccumulatorsTelescope` | src/engine/quarantine.rs:111-165 | the sums telescope to the growth since the baseline and never saturate |
| `Quarantines.TripsExactlyOnQuietStretch` | src/engine/quarantine.rs:111-165 | under any interleaving, a reading trips iff it ends a quiet stretch of enough windows and bytes |
| `Quarantines.TripReportsTheStretch` | src/engine/quarantine.rs:111-165 | a trip reports the bytes fetched and the windows of the whole quiet stretch it ends |
| `Quarantines.HealthySwarmNeverTrips` | src/engine/quarantine.rs:111-165 | a hash verifying a byte in every window of passes it is watched through never trips, however often it left the session |
| `Selector.RankingOrder` | src/selector.rs:59-101 | ranking rearranges the available candidates by seeders, then by the bias's preference |
| `Selector.ScoreOrder` | src/selector.rs:85-101 | comparing scores is comparing footprints, both ways, for every bias |
| `Selector.PreferenceExactly` | src/selector.rs:85-101 | that comparison in sizes and RAM prices: bytes per byte of RAM, compared crosswise, under a positive bias; the smaller, then the cheaper in RAM, under any other |
| `Selector.RatioTermIsFraction` | src/selector.rs:85-101 | the ratio term stays in (0, 1), below one byte of size |
| `Selector.EvictionReversesRanking` | src/selector.rs:111-116 | between torrents of given seeder counts eviction order is the exact reverse of ranking iff the counts are equal and the bias is not zero, or differ and it is |
| `Selector.ReversesWithinBand` | src/selector.rs:111-116 | two torrents of one seeder count are reversed iff the bias is not zero or ranking does not separate them |
| `Selector.ReversesAcrossBands` | src/selector.rs:111-116 | across seeder counts zero bias always reverses, any other exactly where footprints agree with seeders |
| `Selector.ChanceFallsWithSeeders` | src/selector.rs:127-138 | the chance is in (0, 1], is 1 exactly up to the floor, and falls strictly with each further seeder until the clamp |
| `Selector.ChanceIsGeometric` | src/selector.rs:127-138 | up to the floor the chance is one, and each further seeder multiplies it by the aggressiveness until the clamp |
| `Selector.SeederFloorIsTenthPercentile` | src/selector.rs:141-149 | the floor is a count with a tenth, rounded up, at or below it and fewer strictly below |
| `Selector.TenthPercentileIsUnique` | src/selector.rs:141-149 | no other count is, so arrival order does not matter |
| `Selector.ChooseLocation` | src/selector.rs:220-242 | the decrementing walk chooses the slot whose slice holds the target |
| `Selector.RollsChoosingLocation` | src/selector.rs:220-242 | the rolls choosing a location are exactly its interval of the running free space, none if it is ineligible |
| `Selector.ZeroTotalChoosesLast` | src/selector.rs:240-241 | with nothing to weigh the last eligible location is chosen |
| `Ram.PriceIsLinear` | src/engine/ram.rs:38-42 | no 32-bit piece count saturates the price |
| `Ram.CountCapFitsBudget` | src/engine/ram.rs:115-132 | for every measured or configured amount the cap is the exact number of typical torrents the budget pays for, within four fifths of memory and within what is configured |
| `FilePool.Pool.GetOrOpen` | src/engine/pool_storage.rs:228-273 | an answer is what opening the path afresh would find, on hit, miss and after shedding |
| `FilePool.Pool.Lookup` | src/engine/pool_storage.rs:228-273 | a lookup touches the recency list, sheds exactly a quarter when descriptors run out, and retries once |
| `FilePool.Pool.AfterShedding` | src/engine/pool_storage.rs:244-262 | what shedding takes is the least recently used, a quarter of the cap rounded down and at least one, or all there is |
| `FilePool.Pool.Insert` | src/engine/pool_storage.rs:275-294 | inserting is a touch of the bounded list; neither break of the loop is taken |
| `FilePool.Pool.EvictPath` | src/engine/pool_storage.rs:135-145 | exactly the handles of the path go, and are not counted as evictions |
| `FilePool.Pool.Stats` | src/engine/pool_storage.rs:193-201 | opens are live, evicted or swept, and live handles are within the cap |
| `FilePool.Pool.NextUid` | src/engine/pool_storage.rs:326-330 | a view's id was never used before |
| `FilePool.CachedAreMostRecent` | src/engine/pool_storage.rs:228-294 | with no shedding and no deletion, the live handles are exactly the cap most recently used keys |
| `FilePool.StampMovesToFront` | src/engine/pool_storage.rs:228-235 | a newer stamp moves a key to the front of the order the stamps encode |
| `FilePool.EvictionKeepsLinks` | src/engine/pool_storage.rs:277-289 | the least stamp is the last of the list, and dropping it keeps both maps linked |
| `Recency.CachedExactlyWhenRecent` | src/engine/pool_storage.rs:228-294 | a key is cached iff it was used and fewer than cap other keys were used since |
| `Recency.TouchesArePrefix` | src/engine/pool_storage.rs:275-294 | the bounded list is the front of the unbounded one |
| `Recency.LargerPoolHoldsMore` | src/engine/pool_storage.rs:151-159 | a larger pool caches a superset |
| `PooledStorage.PooledStorage.Create` | src/engine/pool_storage.rs:482-495 | a view gets a fresh id and keeps every other view's files |
| `PooledStorage.PooledStorage.Init` | src/engine/pool_storage.rs:347-397 | missing files are created empty, existing bytes kept, an existing file refused without overwrite, and no other view's files touched |
| `PooledStorage.PooledStorage.Take` | src/engine/pool_storage.rs:419-429 | a taken view names the same files |
| `PooledStorage.PooledStorage.PreadExact` | src/engine/pool_storage.rs:399-403 | a read returns the bytes now at the path, or fails only when they are too few or no descriptor is free |
| `PooledStorage.PooledStorage.PwriteAll` | src/engine/pool_storage.rs:405-409 | a write splices the path's bytes and no other path's |
| `PooledStorage.PooledStorage.EnsureFileLength` | src/engine/pool_storage.rs:411-417 | the path's bytes are cut or zero-filled to the length, no other path's |
| `PooledStorage.PooledStorage.RemoveFile` | src/engine/pool_storage.rs:431-440 | the name goes, and every view's cached handle for it |
| `PooledStorage.PerformAll` | src/engine/pool_storage.rs:347-440 | any list of reads, writes, resizes, removals, takes and newly opened views, on one pool and whatever it evicts, behaves as on files never cached |
| `PooledStorage.PathKeeps` | src/engine/pool_storage.rs:399-440 | a path keeps its bytes through calls that do not write, resize or remove it |
| `PooledStorage.WrittenBytesReadBack` | src/engine/pool_storage.rs:399-440 | bytes written through one view are read back through any view naming the path, whatever calls on other paths lie between, unless no descriptor is free |
| `PooledStorage.DoneWriteBytes` | src/engine/pool_storage.rs:405-409 | after a write every byte outside its range is as it was, a gap before it is zeros, the length grows only to its end, and no other path changed |
| `PooledStorage.DoneResizeBytes` | src/engine/pool_storage.rs:411-417 | after a resize the bytes below the length are as they were, further ones zero, and no other path changed |
| `PooledStorage.ByteKeeps` | src/engine/pool_storage.rs:399-440 | a byte stays what it is through any calls that spare it, writes to its own file included |
| `PooledStorage.WrittenByteReadsBack` | src/engine/pool_storage.rs:399-440 | a byte reads back as last written, through any view, whatever writes, resizes and removals that spared it lie between |
| `Bandwidth.RateTracker.Tick` | src/bandwidth.rs:56-89 | a tick appends the delta and pops the expired front and the excess |
| `Bandwidth.RateTracker.QueryRate` | src/bandwidth.rs:103-133 | the loop returns the truncated shares over the effective window |
| `Bandwidth.PrunedRateIsFullRate` | src/bandwidth.rs:56-133 | while the clock never runs back and the cap never bites, every rate up to a day is that of a log that keeps everything |
| `Bandwidth.RateIsBytesPerSecond` | src/bandwidth.rs:103-133 | the up rate is the sent bytes counted in the window over its seconds, the down rate the received; an empty window has none |
| `Bandwidth.OverlapCounts` | src/bandwidth.rs:111-130 | the share of an entry is by the instants of it that lie inside the window |
| `Bandwidth.PushedExactly` | src/bandwidth.rs:56-75 | a tick records what both counters grew by since the last one, if anything did or nothing is recorded yet, and no time stood still |
| `Bandwidth.TickExactly` | src/bandwidth.rs:76-89 | then exactly the leading entries that ended more than a day ago go, and those beyond the newest fifteen hundred |
| `Bandwidth.BytesAreConserved` | src/bandwidth.rs:56-89 | of either counter, recorded, pruned and lost bytes are its growth |
| `Bandwidth.NothingLostExactlyOnMovingClock` | src/bandwidth.rs:56-66 | of either counter, no byte is lost iff no tick with growth had zero span |
| `Bandwidth.ZeroSpanTickLosesBytes` | src/bandwidth.rs:56-66 | a concrete zero-span tick drops ten bytes |
| `Bandwidth.EntriesAreDisjoint` | src/bandwidth.rs:56-89 | the spans are positive, ordered, disjoint and past |
| `Bandwidth.TruncationUnderOneByte` | src/bandwidth.rs:103-133 | only the entry straddling the window start is truncated, so a sum of either direction is short by under one byte |
| `Bandwidth.LoggedBytesTruncation` | src/bandwidth.rs:56-133 | so is every figure a running tracker reports, sent or received |
| `History.Writer.Record` | src/history.rs:220-243 | one event is recorded, rotation happens exactly on the write that would cross the cap, and the live file stays within max(cap, line) |
| `History.Writer.Rotate` | src/history.rs:264-271 | the live file becomes the previous generation, replacing it |
| `History.Writer.ReadEvents` | src/history.rs:324-341 | reading returns the exact suffix of the history that rotations have not dropped, whatever the files held at the start |
| `History.ReadsSuffix` | src/history.rs:220-341 | whatever was recorded over whatever files, both generations read back as the history less whole replaced generations |
| `History.TornOpeningLosesOneEvent` | src/history.rs:220-341 | over files left torn, the history lacks the torn line and the first event, unless that opens a new generation, and nothing else |
| `History.ParseLines` | src/history.rs:343-356 | the loop returns the events of the decodable lines in order and counts the others |
| `History.AppendedLine` | src/history.rs:220-262 | what one appended line does to the readable events, torn tail or not |
| `History.TornTailSwallowsNextEvent` | src/history.rs:343-356 | behind what a write cut short leaves, the next event is readable iff nothing was left |
| `History.TextFile.Cap` | src/history.rs:284-312 | killed after any number of byte writes, the file is the overwritten one, and the kept tail once done |
| `History.KeptTailShape` | src/history.rs:284-312 | the tail is the newest half from behind its first newline, or all of a half without one |
| `History.CapEmptiesFile` | src/history.rs:296-306 | the cap empties the file iff the half's only newline is its last byte |
| `History.CrashKeepsNewestHalf` | src/history.rs:284-312 | at every crash point before the cut the newest half is intact and capping again yields the same tail |
| `History.CapSurvivesCrashes` | src/history.rs:284-312 | killed any number of times and run again, the cap leaves what one run would |
| `TrackerUrl.TruncUrl` | src/attorrent.rs:86-136 | the two loops end, and end at the first leak or the end of the printable bytes, or empty |
| `TrackerUrl.CheckUrl` | src/attorrent.rs:138-149 | the loop decides what a URL is |
| `TrackerUrl.UrlExactly` | src/attorrent.rs:138-149 | a URL is a scheme of letters, digits, plus, minus and dot, then `://`, then something more |
| `TrackerUrl.UrlIsMonotone` | src/attorrent.rs:122-149 | lengthening a URL leaves it one, so the backward loop never recovers a URL |
| `TrackerUrl.TruncatedShape` | src/attorrent.rs:86-136 | the result is a printable prefix, empty or a URL |
| `TrackerUrl.TruncationIsIdempotent` | src/attorrent.rs:86-136 | the result is a fixed point |
| `TrackerUrl.AuthorityIsKept` | src/attorrent.rs:86-136 | the result is empty iff the printable part is no URL, and nothing printable of the authority section is ever cut off |
| `TrackerUrl.AuthorityExactly` | src/attorrent.rs:93-104 | the authority runs from behind the first `://` to the next slash or the end |
| `TrackerUrl.CutAtFirstLeak` | src/attorrent.rs:105-124 | a URL is cut at the first whole digit run before a colon that stands behind its authority, and only there |

## Left out

- Failed saves and failed ledger writes: every save and write succeeds, so the ledger is complete; a failed save changes memory and not the disk, and skips the event of a removal.
- Shutdown in the middle of a scan: a scan runs to its end. Every prefix of a lawful run is lawful, so the safety results hold of an interrupted one too; coverage does not.
- What the torrent library does with an empty torrent: metadata is taken to have at least one piece.
- Sessions, peers, trackers, HTTP, scraping and its cache, catalog parsing: their results are arbitrary inputs.
- Removal of data directories and cached `.torrent` files, the live status push, network statistics: side effects that no decision reads back.
- Prefiltering of the catalog, evaluation workers and their channel: the arrivals of a scan are an arbitrary sequence.
- The clock is read once for a candidate, and once for each part of a pass, where the source reads it a few times in a row.
- Reasons, titles and log lines: a swap's last refusal is not kept, only that nothing was swapped.
- Rounding of `f64`, `powf` and overflow of unchecked 64-bit sums (`bytes_used`, `dir_size` totals): scores, chances and shares are exact, powers positive and monotone, sums unbounded where the source does not saturate them. The size bias is a parameter.
- Attempts and stamps are unbounded, not 32-bit and 64-bit.
- Concurrency: a pool operation is atomic, and so is deleting a file with sweeping its handles; operations in flight on an evicted handle are not modelled.
- Opening without a free descriptor fails before the name is looked up; other errors of `open` than a missing file, directory creation and removal, and duplicate relative paths without overwrite are not told apart.
- The live ledger file exists while the writer does: one removed under it, which the source reopens without rotating, is not modelled.
- `init` is called once a view, as the session does; a second call is not modelled.
- HistoryKeepsDisk: under a limit of the whole 64-bit word, needs every entering footprint to fit it, because the claim fails without it (`FillsKeepDiskExactly`).
- Re-keying of storage locations, configuration parsing and validation, byte-size formatting, keyword filtering, the updater: easy members.
