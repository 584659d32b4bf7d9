# Torrent 2000: model and proofs

A Dafny model of the stateful and arithmetic parts of Torrent 2000, a BitTorrent client, and proofs of what
they promise. `dafny verify dfyconfig.toml` checks the whole project.

Code that updates fields in place is a class with those fields. Each of its methods is proved against a
function (or, where the code draws at random, a relation) on values, and the promises are proved about those:
invariants, whole runs, refinements, round trips. `Runs` has the inductions over runs they share,
`Wrappers` a few shared datatypes and facts about sequences.

| area | what it is | files |
|---|---|---|
| Progress board | tetrominoes that fill a board up to a target; random draws are nondeterministic | TetrisSpec, TetrisShapes, TetrisRuns, TetrisWorstCase, Shuffling, Tetris |
| Piece hashing | one reused buffer over all files, short reads, cancel; SHA-1 is any function | PieceHashing |
| Cumulative statistics | a write-behind cache of per-torrent counters over a transactional store | StatsSpec, StatsRuns, Stats |
| Levels | exponential thresholds and the corrected estimate, in exact rationals | Leveling |
| Peer reputation | peer snapshots turned into disconnects, a nested index, throttled writes | PeerReputationSpec, PeerReputationRuns, PeerStretches, PeerReputation |
| Session | restoring torrents, finished alerts, the autosave queue, streaming deadlines | SessionSpec, SessionRuns, ResumeSaves, Streaming, Session |
| Settings history | a diff log with undo, fed by a memory of the last save | SettingsSpec, SettingsRuns, SettingsHistory |
| Auto-shutdown | countdown, cancel, quit, deferral by busy sources, posted retries | AutoShutdownSpec, AutoShutdownRuns, AutoShutdown |
| LAN peers | expiry, private addresses only, throttled writes | LanPeerSpec, LanPeerRuns, LanPeerSightings, LanPeerCache |
| Sunburst | grouping by folder and the nested layout, in exact reals | SunburstSpec, SunburstLayout, Sunburst |

Where the code says less or more than its own comments:

- `restore_settings_snapshot` is documented as undoing one save. It does so from saved settings; an edit made
  since and not saved is written by the restore's own save (`RestoringGoesBackIff`, `UnsavedEditSurvivesRestore`).
  The application saves right after each edit; such an edit comes from a save that raised, from a caller
  outside it, or from loading a file without a download folder (src/torrent2000/config/settings.py:314-315).
- A removal is handled when its alert arrives. A torrent added again before that loses its new row, handle and
  resume file to the late alert (`AddedByHandStaysIff`, `LateRemovalDropsTheNewRow`).
- Auto-shutdown waits for background work that a shutdown would cut short, but only to start its countdown
  (src/torrent2000/engine/auto_shutdown_service.py:53-56). Work begun during the countdown is cut short
  (`ShutdownIsQuietIff`, `ShutdownInTheMiddle`).
- An import is meant to apply on the next start. Any save before that writes the running settings over it
  (`ImportSurvivesIff`, `OverwrittenImportCanBeRestored`).
- `progress_within_level` guards against an empty level and clamps at 1. Neither ever matters (`Progress`).
- The catch-up loop of the board is written to stop when a turn refuses. No turn ever does (`CatchUp`).
- A folder really named "(racine)" shares its group with the files outside any folder (`SameGroupIff`,
  `RacineFolderSharesItsGroup`).

## Model

| member | source | states |
|---|---|---|
| `TetrisRuns.Converges` | resources/web/spike/tetris.js:162-183 | With the target left alone, any run of `step` from any consistent state is at rest after 39 calls and stays there unchanged, with exactly max(cells at the start, target) cells, whatever the board size and the random draws |
| `TetrisWorstCase.BoundIsReached` | resources/web/spike/tetris.js:162-183 | 39 is the least such bound: from a fresh 8 x 18 board three moves reach a state whose run is not at rest after 38 steps |
| `TetrisRuns.RunKeeps` | resources/web/spike/tetris.js:61-64 | Over any mix of `setProgress` and `step` the invariant holds, no cell is ever cleared, and no move takes the cell count past max(old count, target) |
| `TetrisRuns.FallingPieceKeepsItsCells` | resources/web/spike/tetris.js:175-183 | Until it locks, a falling piece keeps its shape, column and target row, and its four landing cells stay in the board, distinct and empty, even if the target changes |
| `TetrisRuns.StepEffect` | resources/web/spike/tetris.js:162-183 | One step keeps the invariant; locking a piece adds exactly min(4, max(0, target - count)) cells; every step short of rest brings the board nearer to it |
| `TetrisRuns.CatchUpEffect` | resources/web/spike/tetris.js:165-168 | The catch-up loop locks exactly four cells per turn and stops with 13 to 16 cells missing if it ran at all |
| `TetrisRuns.CatchUpNeverFinishes` | resources/web/spike/tetris.js:129-131 | While more than 16 cells are missing the board is never in finishing mode |
| `TetrisRuns.AdvanceEffect` | resources/web/spike/tetris.js:133-160 | A turn either starts a fall (never when instant, never when finishing) or locks min(4, missing) cells |
| `TetrisRuns.LocksExactly` | resources/web/spike/tetris.js:105-117 | Locking fresh cells adds exactly as many as the target allows, all inside the board |
| `TetrisRuns.TakenIsLockCount` | resources/web/spike/tetris.js:105-117 | On distinct empty cells the loop stops after exactly min(n, max(0, missing)) of them |
| `TetrisRuns.RankBounds` | resources/web/spike/tetris.js:162-183 | The number of steps a state may still need is at most 39, and zero exactly at rest |
| `TetrisShapes.CanPlaceIff` | resources/web/spike/tetris.js:15-23 | A piece can be placed exactly if four empty cells of the board are joined edge to edge: no tetromino and no rotation is missing from the table, and none is there that is not one |
| `TetrisShapes.RotationsTurn` | resources/web/spike/tetris.js:15-23 | Each listed rotation of a shape is a quarter turn of the one before it, all the way round |
| `TetrisRuns.FallStartsIff` | resources/web/spike/tetris.js:133-160 | A turn starts a fall exactly if it is not instant, the board is not finishing and four empty cells are joined edge to edge |
| `TetrisRuns.FinishingIff` | resources/web/spike/tetris.js:58 | Finishing means at most twelve empty cells on boards of 36 or more, at most four below 15, else at most a third |
| `TetrisSpec.RotationIsTightBox` | resources/web/spike/tetris.js:15-23 | Every rotation in the table is four distinct cells in a box that touches row 0 and column 0: what the search ranges rely on |
| `TetrisSpec.AllColumnsTried` | resources/web/spike/tetris.js:92-98 | Trying all columns of the random order is trying all columns there are |
| `TetrisSpec.AllRowsTried` | resources/web/spike/tetris.js:92-98 | Likewise for rows, and a rotation larger than the board fits nowhere |
| `TetrisSpec.AllShapesTried` | resources/web/spike/tetris.js:86-102 | If no rotation of any listed shape fits, no placement exists |
| `TetrisSpec.LandingIsFourEmptyCells` | resources/web/spike/tetris.js:66-73 | A placement covers exactly four distinct empty cells of the board |
| `TetrisSpec.BoardCount` | resources/web/spike/tetris.js:57 | A board has rows * cols cells |
| `Tetris.TetrisBoardModel.constructor` | resources/web/spike/tetris.js:50-59 | An empty board at rest, with the invariant |
| `Tetris.TetrisBoardModel.SetProgress` | resources/web/spike/tetris.js:61-64 | Clamps and rounds to the nearest count of cells; only the target changes |
| `Tetris.TetrisBoardModel.FitsAt` | resources/web/spike/tetris.js:66-73 | True exactly if each cell of the shape falls on an empty board cell |
| `Tetris.TetrisBoardModel.FindPlacement` | resources/web/spike/tetris.js:75-103 | A placement returned fits; one is returned exactly if four empty cells of the board are joined edge to edge, whatever the random tries and shuffles did |
| `Tetris.TetrisBoardModel.TryAtRandom` | resources/web/spike/tetris.js:76-85 | One random try: what it returns fits |
| `Tetris.TetrisBoardModel.TryEveryColumn` | resources/web/spike/tetris.js:96-98 | A column that fits, or none only if no column of the row does |
| `Tetris.TetrisBoardModel.TryEverySpot` | resources/web/spike/tetris.js:90-99 | A position that fits, or none only if the rotation fits nowhere |
| `Tetris.TetrisBoardModel.TryEveryRotation` | resources/web/spike/tetris.js:88-100 | A rotation that fits somewhere, or none only if none does |
| `Tetris.TetrisBoardModel.LockCells` | resources/web/spike/tetris.js:105-117 | Fills cells in order until the target is met; the count of cells set in the grid and the counter move together |
| `Tetris.TetrisBoardModel.CollectEmptyCells` | resources/web/spike/tetris.js:123-127 | Distinct empty cells, min(limit, empty) of them |
| `Tetris.TetrisBoardModel.Advance` | resources/web/spike/tetris.js:133-160 | Refuses exactly if nothing is missing; otherwise does one turn as specified |
| `Tetris.TetrisBoardModel.CatchUp` | resources/web/spike/tetris.js:165-168 | The loop ends, and leaves what a sequence of instant turns leaves |
| `Tetris.TetrisBoardModel.Step` | resources/web/spike/tetris.js:162-183 | Keeps the invariant, moves as specified, and returns true exactly if the model changed |
| `Shuffling.Shuffle` | resources/web/spike/tetris.js:28-34 | In place, a permutation |
| `Shuffling.PartialShuffle` | resources/web/spike/tetris.js:40-47 | The array is permuted and its first min(count, length) elements are returned |
| `Shuffling.DrawIsDistinct` | resources/web/spike/tetris.js:36-47 | A partial shuffle of distinct elements draws distinct elements of the original |
| `PieceHashing.HashPieces` | src/torrent2000/engine/torrent_creator.py:27-61 | Outcome and stored digests are a function of the files, the piece length and the cancel polls alone: no pattern of short reads can change them |
| `PieceHashing.HashedMeansPlainDefinition` | src/torrent2000/engine/torrent_creator.py:38-61 | On a normal return the i-th hash is that of bytes [i*L, min((i+1)*L, total)) of the stream, for just the ceil(total/L) indices i (BEP 3, "info dictionary") |
| `PieceHashing.HashedIff` | src/torrent2000/engine/torrent_creator.py:47-61 | A normal return exactly if no poll after a full piece finds the cancel event set, no file has shrunk, and the expected count is ceil(total/L) |
| `PieceHashing.PieceIsSlice` | src/torrent2000/engine/torrent_creator.py:51-59 | Piece i of a stream is its i-th slice |
| `PieceHashing.PieceCount` | src/torrent2000/engine/torrent_creator.py:57-61 | There are ceil(total/L) pieces |
| `PieceHashing.AppendPart` | src/torrent2000/engine/torrent_creator.py:46-54 | Read bytes that fit either lengthen the unfinished piece or complete exactly one |
| `PieceHashing.StreamOfUnchangedFiles` | src/torrent2000/engine/torrent_creator.py:42-50 | For files that kept their size the stream is the concatenation of their contents |
| `PieceHashing.StoppingIsExpected` | src/torrent2000/engine/torrent_creator.py:47-56 | Giving up inside a file, by a shrunk file or a cancel, leaves the digests of just the full pieces read so far |
| `PieceHashing.HashFile` | src/torrent2000/engine/torrent_creator.py:43-56 | One file: the buffer carries over from the file before, and what is left of it to the next one |
| `PieceHashing.TakeRead` | src/torrent2000/engine/torrent_creator.py:49-56 | One read: a full buffer is hashed under the next index and the cancel event polled once |
| `PieceHashing.HashRemainder` | src/torrent2000/engine/torrent_creator.py:57-59 | The last partial piece is hashed if there is one |
| `PieceHashing.RawFile.ReadInto` | src/torrent2000/engine/torrent_creator.py:46 | An unbuffered read: at most what was asked for, nothing only at the end, bytes in file order |
| `PieceHashing.FirstCancelIsLeast` | src/torrent2000/engine/torrent_creator.py:55-56 | The cancel that ends the hashing is the first poll that answers yes |
| `StatsRuns.Conservation` | src/torrent2000/stats/service.py:38-81 | Over any history of updates, flushes, removals, re-adds and restarts the stored totals are the sum, over all torrents, of the positive increments between successive flushed readings |
| `StatsRuns.ConservationInIntegers` | src/torrent2000/stats/service.py:38-81 | The same for downloads and uploads by themselves, with the positive differences of the readings written out in integers |
| `StatsRuns.FlushInIntegers` | src/torrent2000/stats/service.py:62-80 | After any history a flush adds to each total, over the torrents in memory, the reading less the stored counter where it exceeds it and nothing where it does not; every such reading is stored then |
| `StatsRuns.RemovalInIntegers` | src/torrent2000/stats/service.py:41-60 | After any history a removal does so for its torrent alone, for download and upload separately |
| `StatsRuns.PendingIsLastReport` | src/torrent2000/stats/service.py:38-44 | A reading is in memory exactly if it was reported and neither a removal nor a restart came since; it is the last one reported |
| `StatsRuns.NoByteCountedTwice` | src/torrent2000/stats/service.py:13-17 | If no counter was reset, the totals are the sum of the last flushed readings |
| `StatsRuns.CreditTelescopes` | src/torrent2000/stats/service.py:57-58 | The increments of a counter that never went back add up to its last flushed value |
| `StatsRuns.CacheAgreesAlways` | src/torrent2000/stats/service.py:46-49 | At every event boundary each cached counter equals the stored one |
| `StatsRuns.MatchesAlways` | src/torrent2000/stats/service.py:38-81 | Each torrent's pending reading and stored counter are what its own events say |
| `StatsRuns.CacheIsInvisible` | src/torrent2000/stats/service.py:46-60 | On every history the service leaves the store that one without a cache would leave |
| `StatsRuns.CrashIsInvisibleIff` | src/torrent2000/stats/service.py:38-60 | All memory dropped at any moment, readings not flushed included: no later totals or counters can show it, whatever follows, exactly if the readings that come in next cover every torrent whose reading was not in the store yet |
| `StatsRuns.LostReadingIsRecovered` | src/torrent2000/stats/service.py:41-60 | A crash in any run loses no byte: if no counter was reset and each torrent with a reading in memory is reported and flushed again, totals and counters are those of the run without the crash |
| `StatsRuns.RestartAfterFlushIsInvisible` | src/torrent2000/stats/service.py:89-91 | Right after a flush nothing needs to be reported again |
| `StatsRuns.RemovalForgetsInvisibly` | src/torrent2000/stats/service.py:41-44 | At any moment, with any reading pending, a removal leaves what the flush of its torrent alone would leave: that it also forgets the torrent never shows in the store, whatever follows |
| `StatsRuns.RemovalAfterFlushIsInvisible` | src/torrent2000/stats/service.py:41-60 | After a flush of everything a removal has nothing left to flush |
| `StatsSpec.RemovalIsTwoWrites` | src/torrent2000/stats/store.py:83-102 | The one-commit removal has the effect of `add_totals` then `set_torrent_counter` |
| `StatsRuns.AllGathered` | src/torrent2000/stats/service.py:62-80 | The flush loop, in any order of the torrents, gathers just what has to be written |
| `StatsSpec.TotalSplit` | src/torrent2000/stats/service.py:66-78 | Nor does a sum of integers |
| `StatsSpec.SumOverSplit` | src/torrent2000/stats/service.py:66-78 | A sum over torrents does not depend on their order |
| `Stats.StatsStore.AddTotals` | src/torrent2000/stats/store.py:37-45 | Adds the positive parts of a delta |
| `Stats.StatsStore.SetTorrentCounter` | src/torrent2000/stats/store.py:53-60 | Sets one counter |
| `Stats.StatsStore.ApplyFlush` | src/torrent2000/stats/store.py:62-81 | One commit: totals and all given counters |
| `Stats.StatsStore.RecordRemoval` | src/torrent2000/stats/store.py:83-102 | One commit: totals and one counter |
| `Stats.StatsService.constructor` | src/torrent2000/stats/service.py:21-36 | A start, or a restart on the same database, with no memory |
| `Stats.StatsService.OnStatusUpdated` | src/torrent2000/stats/service.py:38-39 | Only the torrent's pending reading changes |
| `Stats.StatsService.OnTorrentRemoved` | src/torrent2000/stats/service.py:41-44 | Flushes the torrent and forgets it |
| `Stats.StatsService.LastSeenFor` | src/torrent2000/stats/service.py:46-49 | The cached counter, else the stored one, which is cached |
| `Stats.StatsService.FlushTorrent` | src/torrent2000/stats/service.py:51-60 | One torrent flushed, reset or not |
| `Stats.StatsService.Flush` | src/torrent2000/stats/service.py:62-81 | All torrents flushed in one commit, none if nothing moved; a reset is written though it gains nothing |
| `Leveling.LevelForTotalBytes` | src/torrent2000/stats/leveling.py:56-66 | From any starting estimate both nudge loops end on the level |
| `Leveling.LevelIsUnique` | src/torrent2000/stats/leveling.py:56-66 | At most one n has threshold(n) <= total < threshold(n+1) |
| `Leveling.LevelReached` | src/torrent2000/stats/leveling.py:48-66 | Level n is reached exactly if its threshold is met |
| `Leveling.LevelAtThreshold` | src/torrent2000/stats/leveling.py:48-66 | The level of threshold(n) is n, and one byte less is level n - 1 |
| `Leveling.ThresholdIsNearest` | src/torrent2000/stats/leveling.py:48-53 | Threshold n + 1 is an integer nearest to 2^30 * (7/5)^n, in whole numbers |
| `Leveling.RoundsToNearest` | src/torrent2000/stats/leveling.py:53 | Rounding goes to the nearest integer, from the middle to the even one |
| `Leveling.NextThreshold` | src/torrent2000/stats/leveling.py:48-53 | Rounding never closes the gap: the next threshold is more than 400,000,000 bytes away |
| `Leveling.ThresholdsIncrease` | src/torrent2000/stats/leveling.py:48-53 | Thresholds are strictly increasing |
| `Leveling.LevelIsMonotone` | src/torrent2000/stats/leveling.py:56-66 | More bytes never lower the level |
| `Leveling.LevelGrowsWithBytes` | src/torrent2000/stats/leveling.py:78-84 | More downloaded and uploaded bytes at no smaller non-negative factors never lower the weighted total or the level |
| `Leveling.Progress` | src/torrent2000/stats/leveling.py:69-75 | In [0, 1), and 0 exactly at a threshold (or for a total that is not positive) |
| `Leveling.ProgressMakesUpTotal` | src/torrent2000/stats/leveling.py:69-75 | The lower threshold and that share of the gap make up the total |
| `Leveling.WeightedTotalIsClose` | src/torrent2000/stats/leveling.py:78-84 | The weighted total is within 1 of the exact sum of downloads and uploads times their factors |
| `Leveling.FactorsStayApart` | src/torrent2000/stats/leveling.py:78-84 | With nothing uploaded the upload factor does not matter, nor the download factor with nothing downloaded |
| `Leveling.ThemesWeigh` | src/torrent2000/stats/leveling.py:30-45 | An uploaded byte counts one and a half times a downloaded one; the macOS theme halves both; under the CCCP theme it counts three times |
| `Leveling.ThemesAreOrdered` | src/torrent2000/stats/leveling.py:34-45 | On the same totals no theme ranks below the macOS one or above the CCCP one |
| `Leveling.Snapshot` | src/torrent2000/stats/leveling.py:87-102 | Raw totals, with the level of the weighted total, which lies between the two thresholds shown |
| `PeerReputationRuns.RefinesFlatHistory` | src/torrent2000/engine/peer_reputation.py:168-191 | After any events the nested index and the records are the folds over the flat (torrent, address) history |
| `PeerStretches.RecordsAddUp` | src/torrent2000/engine/peer_reputation.py:94-109 | After any events the bytes, hashfails, seconds and disconnects of an address are what was loaded and, for each stretch of presence that ended, the counters of the last snapshot that showed it, the time from the first one to the one that missed it, and one |
| `PeerStretches.LabelMeaning` | src/torrent2000/engine/peer_reputation.py:194-209 | Bad exactly after a failed piece; good exactly after some bytes over stretches of a minute on average and no failed piece; neutral otherwise |
| `PeerReputationSpec.SnapshotIsLastEntries` | src/torrent2000/engine/peer_reputation.py:175-179 | Of several entries for one address the last one counts |
| `PeerReputationSpec.StreakMeaning` | src/torrent2000/engine/peer_reputation.py:175-179 | A streak runs exactly while the torrent's last snapshot shows the address; it carries that snapshot's counters and the time of the first one of the stretch |
| `PeerReputationSpec.DisconnectCount` | src/torrent2000/engine/peer_reputation.py:94-109 | The disconnect count is the number of present-to-absent transitions over all torrents, plus what was loaded |
| `PeerReputationRuns.IndexIsLastSnapshot` | src/torrent2000/engine/peer_reputation.py:166-191 | The index holds just the addresses of each torrent's last snapshot, and no empty inner map |
| `PeerReputationRuns.OtherTorrentsKeepTheirStreaks` | src/torrent2000/engine/peer_reputation.py:168-191 | Over any run of events that observe other torrents, a torrent's streaks run on unchanged |
| `PeerReputationRuns.WritesAreThrottled` | src/torrent2000/engine/peer_reputation.py:46-54 | An observation writes no sooner than thirty seconds after any earlier write has ended |
| `PeerReputationRuns.OnlyWritesChangeTheFile` | src/torrent2000/engine/peer_reputation.py:111-128 | The file changes by those writes only |
| `PeerReputationRuns.FileIsExactForAPrefix` | src/torrent2000/engine/peer_reputation.py:111-128 | At any moment the file holds the exact records of some prefix of the history, the whole of it if nothing is pending |
| `PeerReputationRuns.UnsavedIsYoung` | src/torrent2000/engine/peer_reputation.py:46-54 | What an observation leaves unsaved happened within the last thirty seconds: the file holds the records as of some event, and every later one is that recent |
| `PeerReputationRuns.QuitFlushKeepsEverything` | src/torrent2000/engine/peer_reputation.py:111-119 | After the flush at quit the next start loads the very records in memory |
| `PeerReputationSpec.BadStaysBad` | src/torrent2000/engine/peer_reputation.py:194-209 | An address once labelled bad stays bad, whatever is observed later |
| `PeerReputationSpec.DisplayRoundTrip` | src/torrent2000/engine/peer_reputation.py:64-70 | From "address:port" the address comes back, however many colons it has |
| `PeerReputationSpec.DisplayWithoutPort` | src/torrent2000/engine/peer_reputation.py:70 | An address shown without a port stays as it is |
| `PeerReputation.PeerReputationStore.RecordDisconnect` | src/torrent2000/engine/peer_reputation.py:94-109 | Folds one streak in; writes the file only if asked to |
| `PeerReputation.PeerReputationStore.Flush` | src/torrent2000/engine/peer_reputation.py:111-119 | Writes exactly if something is unsaved and the last write is old enough |
| `PeerReputation.PeerReputationTracker.Observe` | src/torrent2000/engine/peer_reputation.py:168-191 | Merges the snapshot, folds the streaks that ended, and writes at most once |
| `PeerReputation.PeerReputationTracker.MergePeers` | src/torrent2000/engine/peer_reputation.py:175-179 | The loop over the peers: a later entry for an address wins, and a running streak keeps its start |
| `PeerReputation.PeerReputationTracker.DropGone` | src/torrent2000/engine/peer_reputation.py:182-185 | The loop over the addresses gone: each streak folded once, in any order |
| `SessionRuns.ReachableIsConsistent` | src/torrent2000/engine/session_manager.py:1082-1122 | In every run each handle has a row, each row has a handle or waits for its add alert, a waiting torrent keeps its row and file; once all is served nothing waits, and once nothing waits rows and handles coincide |
| `SessionRuns.AddAlertSettles` | src/torrent2000/engine/session_manager.py:532-548 | The add alert leaves a row with a handle, or, if it failed and the user has not added the torrent meanwhile, no row, the resume file kept and one failure signal |
| `SessionRuns.SwallowedIff` | src/torrent2000/engine/session_manager.py:499-507 | A finished alert is swallowed exactly if the torrent was restored complete and nothing since has finished it, removed it or failed its add |
| `SessionRuns.OnlyTheFirstIsSwallowed` | src/torrent2000/engine/session_manager.py:500-507 | At most one finished alert of a torrent is swallowed, and it is the first |
| `SessionRuns.OtherFinishesAreSignalled` | src/torrent2000/engine/session_manager.py:500-514 | Over any run the finished signals of a torrent are its finished alerts but for at most one swallowed, and none is swallowed if it awaits no reconfirmation |
| `SessionRuns.AlertsStayApart` | src/torrent2000/engine/session_manager.py:499-548 | An alert changes nothing about any other torrent and signals at most once, about its own |
| `SessionRuns.RemovalLeavesNothing` | src/torrent2000/engine/session_manager.py:522-530 | A removal alert leaves nothing of its torrent but a wait for an add alert, and is signalled once |
| `SessionRuns.AddByHandListsAnew` | src/torrent2000/engine/session_manager.py:595-613 | An add by hand lists its torrent anew, without a date, under its new handle |
| `SessionRuns.RestoreLists` | src/torrent2000/engine/session_manager.py:1099-1122 | A restore lists just the torrents that were not refused, without a date, and announces them in order |
| `SessionRuns.AddedByHandStaysIff` | src/torrent2000/engine/session_manager.py:522-530 | A torrent the user adds keeps its row and handle, in every run in which nobody asks for its removal, exactly if no earlier removal of it was still to be reported at the add |
| `SessionRuns.LateRemovalDropsTheNewRow` | src/torrent2000/engine/session_manager.py:522-530 | Added, removed and added again before the removal is reported: the late alert drops the new row, handle and resume file |
| `SessionRuns.OnlyCompleteAreUnconfirmed` | src/torrent2000/engine/session_manager.py:1120-1121 | Only torrents restored complete await the reconfirmation |
| `Session.SessionManager.RestorePreviousSession` | src/torrent2000/engine/session_manager.py:1099-1122 | One asynchronous add, row and signal per saved torrent; an entry that raises is skipped |
| `Session.SessionManager.OnTorrentAdded` | src/torrent2000/engine/session_manager.py:532-548 | The handler, in all four cases |
| `Session.SessionManager.OnTorrentFinished` | src/torrent2000/engine/session_manager.py:499-514 | The handler: swallow, or date the row and signal |
| `Session.SessionManager.OnTorrentRemoved` | src/torrent2000/engine/session_manager.py:522-530 | Row, handle, confirmation and resume file go; the pending set is left alone |
| `Session.SessionManager.Add` | src/torrent2000/engine/session_manager.py:595-613 | Row and handle of a synchronous add |
| `Session.SessionManager.DispatchAll` | src/torrent2000/engine/alerts.py:68-78 | Each alert of a batch in turn |
| `Session.SessionManager.SaveAllResumeData` | src/torrent2000/engine/session_manager.py:438-447 | Queues each torrent with a handle that is not queued already, once |
| `Session.SessionManager.DrainResumeSaveQueue` | src/torrent2000/engine/session_manager.py:449-457 | Pops at most two; a save is requested only for handles present and valid then |
| `ResumeSaves.NeverDuplicates` | src/torrent2000/engine/session_manager.py:445-447 | The queue never holds a torrent twice |
| `ResumeSaves.MovesUpTwoPerTick` | src/torrent2000/engine/session_manager.py:449-457 | A queued torrent moves up two places a tick, and refills never overtake it |
| `ResumeSaves.SavedOnItsTick` | src/torrent2000/engine/session_manager.py:449-457 | The torrent at position p is popped on tick ceil((p+1)/2), and its save is requested then exactly if its handle is there and valid |
| `ResumeSaves.NotPoppedBefore` | src/torrent2000/engine/session_manager.py:449-457 | and not before |
| `ResumeSaves.RequestedIff` | src/torrent2000/engine/session_manager.py:453-457 | A save is requested exactly for the popped torrents whose handle is there and valid |
| `Streaming.ApplyStreamingDeadlines` | src/torrent2000/engine/session_manager.py:921-938 | Nothing without metadata, files or a piece length; else the deadlines of the head of a largest file |
| `Streaming.LargestIndex` | src/torrent2000/engine/session_manager.py:931 | The first of the largest files |
| `Streaming.DeadlinesCoverTheHead` | src/torrent2000/engine/session_manager.py:932-938 | The deadlines 0, 500, 1000, ... go to exactly the first min(30, span) pieces that hold a byte of the file, all of them pieces of the torrent |
| `Streaming.OverlapIsARange` | src/torrent2000/engine/session_manager.py:934-935 | The pieces that hold a byte of a file are those from its first byte's to its last byte's |
| `Streaming.OverlapIsInTorrent` | src/torrent2000/engine/session_manager.py:935 | and they are pieces of the torrent |
| `Streaming.EmptyFilesGetNoDeadline` | src/torrent2000/engine/session_manager.py:935-938 | No piece is scheduled when all files are empty |
| `SettingsRuns.RestoringGoesBack` | src/torrent2000/config/settings_history.py:117-142 | From saved settings, restoring the entries of any run of saves, newest first, brings the file back to where the run began, on every field the log may hold, although each restore logs a line of its own |
| `SettingsRuns.RestoringGoesBackIff` | src/torrent2000/config/settings_history.py:117-142 | With edits not saved yet it does so exactly if none of them touches a field the entries leave out |
| `SettingsRuns.UnsavedEditSurvivesRestore` | src/torrent2000/config/settings_history.py:141-142 | From any settings: one field saved, another edited and not saved; undoing the save writes that edit, and the file is not where it was |
| `SettingsRuns.RestoringShownLinesGoesBack` | src/torrent2000/config/settings_history.py:93-142 | A user who restores the newest lines the log shows, as many as a run of saves logged and at most 200, is back where the run began |
| `SettingsRuns.ShownIsJournal` | src/torrent2000/config/settings_history.py:93-114 | Those lines are the ones the run logged, newest first |
| `SettingsRuns.RestoreCanBeUndone` | src/torrent2000/config/settings_history.py:117-126 | Restoring the line a restore logged undoes that restore |
| `SettingsRuns.RewindGoesBack` | src/torrent2000/config/settings_history.py:42-58 | The logged diffs of a run, undone from the newest, turn its last file into its first |
| `SettingsRuns.RestoresRewind` | src/torrent2000/config/settings_history.py:129-142 | Successive restores compose to one rewind of the settings object |
| `SettingsRuns.ImportSurvivesIff` | src/torrent2000/ui/web/bridge_profile_security.py:155-164 | An imported file is there at the next start exactly if no save came in between or the last one wrote the imported settings |
| `SettingsRuns.OverwrittenImportCanBeRestored` | src/torrent2000/config/settings.py:318-349 | A save right after an import puts the running settings back into the file; the line it logs brings the imported ones back on every field the log may hold |
| `SettingsRuns.InvAlways` | src/torrent2000/config/settings.py:11-20 | What the process remembers of its last save is absent or equal to the file |
| `SettingsRuns.StepLogs` | src/torrent2000/config/settings.py:320-349 | So each save logs the difference to the file itself |
| `SettingsRuns.LogIsTailOfJournal` | src/torrent2000/config/settings_history.py:70-90 | Trimming loses only old lines: the log is a tail of everything logged, with the 200 newest lines always in it |
| `SettingsRuns.LogStaysShort` | src/torrent2000/config/settings_history.py:70-71 | The log is always at most 64 KiB or 200 lines long |
| `SettingsRuns.NothingDroppedWhileSmall` | src/torrent2000/config/settings_history.py:70-71 | While all that was logged fits into 64 KiB no line is dropped |
| `SettingsRuns.SecretsAreNeverLogged` | src/torrent2000/config/settings_history.py:32-35 | Neither "proxy" nor "remote_access_token" is ever in the log |
| `SettingsRuns.SavedSecretsAreEncrypted` | src/torrent2000/config/settings.py:332-342 | A save encrypts just those two in the file and leaves the settings in memory alone |
| `SettingsSpec.UndoDiff` | src/torrent2000/config/settings_history.py:49-58 | Undoing a diff gives back the older values on every field it may hold |
| `SettingsHistory.SettingsFiles.Save` | src/torrent2000/config/settings.py:318-349 | Writes the file, remembers it, and logs the difference to what was remembered or found |
| `SettingsHistory.SettingsFiles.RecordSettingsChange` | src/torrent2000/config/settings_history.py:42-72 | One line for the changed fields, none if nothing changed, trimmed when the file is large |
| `SettingsHistory.SettingsFiles.TrimHistory` | src/torrent2000/config/settings_history.py:74-90 | The newest 200 lines |
| `SettingsHistory.SettingsFiles.ReadSettingsHistory` | src/torrent2000/config/settings_history.py:93-114 | Up to `limit` lines, the most recent first |
| `SettingsHistory.SettingsFiles.RestoreSettingsSnapshot` | src/torrent2000/config/settings_history.py:117-142 | Sets each logged field back on the live settings, then saves |
| `SettingsHistory.SettingsFiles.ForgetSavedConfig` | src/torrent2000/config/settings.py:19-20 | Only the memory of the last save goes |
| `SettingsHistory.SettingsFiles.Import` | src/torrent2000/ui/web/bridge_profile_security.py:159 | A file written by someone else is followed by forgetting the last save |
| `AutoShutdownRuns.EveryShutdownIsEarned` | src/torrent2000/engine/auto_shutdown_service.py:84-121 | In every run each shutdown follows its own start with nothing in between, does what was saved at that start, and comes after no quit |
| `AutoShutdownRuns.EveryShutdownWasAllowed` | src/torrent2000/engine/auto_shutdown_service.py:84-121 | In every run each shutdown has its start, laid when the feature was on, all torrents idle, no source busy and no quit begun, and a later moment when it elapsed with the feature still on and no quit begun; it does what the settings said at the start |
| `AutoShutdownRuns.IdleIff` | src/torrent2000/engine/auto_shutdown_service.py:26-30 | A torrent that downloads, is queued or is being checked holds a countdown off, and no other |
| `AutoShutdownRuns.SettingsAreTheLastSet` | src/torrent2000/engine/auto_shutdown_service.py:95-96 | The settings a countdown follows are those last set |
| `AutoShutdownRuns.EveryStartWasAllowed` | src/torrent2000/engine/auto_shutdown_service.py:84-102 | In every run each countdown was started when it might be, with the action and delay of that moment |
| `AutoShutdownRuns.ShutdownIsQuietIff` | src/torrent2000/engine/auto_shutdown_service.py:113-121 | In every run a shutdown finds all torrents idle and no source busy exactly if no work begun since its countdown started is still running |
| `AutoShutdownRuns.ShutdownInTheMiddle` | src/torrent2000/engine/auto_shutdown_service.py:113-121 | A run from the start that shuts the machine down during an extraction and a download |
| `AutoShutdownRuns.CountdownsNeverOverlap` | src/torrent2000/engine/auto_shutdown_service.py:87-88 | Between two starts a countdown has always ended |
| `AutoShutdownRuns.StartsOnlyWhenIdle` | src/torrent2000/engine/auto_shutdown_service.py:84-102 | A countdown starts only with the feature on, all torrents idle, no source busy, none running and no quit begun |
| `AutoShutdownRuns.ShutsDownOnlyOnElapse` | src/torrent2000/engine/auto_shutdown_service.py:113-121 | The machine is shut down only when a countdown elapses with the feature still on, doing what was saved at its start |
| `AutoShutdownRuns.AlwaysInv` | src/torrent2000/engine/auto_shutdown_service.py:58-121 | In every run a deferred request waits for a busy source, and a pending action is that of the running countdown |
| `AutoShutdownRuns.LastSourcePostsRetry` | src/torrent2000/engine/auto_shutdown_service.py:76-82 | When the last busy source goes idle a deferred request is posted again |
| `AutoShutdownRuns.NoRequestIsForgotten` | src/torrent2000/engine/auto_shutdown_service.py:76-102 | After a request was put off, at any later moment before the quit with no source busy and no retry posted, a retry has run in between; it started the countdown exactly if it might start then |
| `AutoShutdownRuns.DeferredMeansBusy` | src/torrent2000/engine/auto_shutdown_service.py:76-93 | Before the quit a deferred request means that a source is busy |
| `AutoShutdownRuns.CountIsUnreported` | src/torrent2000/engine/post_complete_action_service.py:148-168 | `_pending_extractions` is the number of extractions begun and not yet reported |
| `AutoShutdown.PostCompleteActionService.UnzipFiles` | src/torrent2000/engine/post_complete_action_service.py:148-160 | One extraction counted if there is any archive |
| `AutoShutdown.PostCompleteActionService.OnExtractionFinished` | src/torrent2000/engine/post_complete_action_service.py:162-168 | Counts down; the idle signal goes out exactly on zero before the quit |
| `AutoShutdown.AutoShutdownService.IsIdle` | src/torrent2000/engine/auto_shutdown_service.py:26-30 | True exactly if no torrent is in an active download state |
| `AutoShutdown.AutoShutdownService.MaybeStartCountdown` | src/torrent2000/engine/auto_shutdown_service.py:84-102 | Refuses, puts off or starts, as specified |
| `AutoShutdown.AutoShutdownService.OnTorrentFinished` | src/torrent2000/engine/auto_shutdown_service.py:73-74 | The extraction of a finished torrent is counted before its countdown is asked for |
| `AutoShutdown.AutoShutdownService.OnBusySourceIdle` | src/torrent2000/engine/auto_shutdown_service.py:76-82 | A deferred request becomes a posted retry |
| `AutoShutdown.AutoShutdownService.CancelShutdown` | src/torrent2000/engine/auto_shutdown_service.py:104-111 | No timer and no pending action are left |
| `AutoShutdown.AutoShutdownService.Stop` | src/torrent2000/engine/auto_shutdown_service.py:66-71 | Cancels, and nothing starts afterwards |
| `AutoShutdown.AutoShutdownService.OnCountdownElapsed` | src/torrent2000/engine/auto_shutdown_service.py:113-121 | Executes the saved action, or lapses if cancelled, quitting or switched off; a timeout after its countdown was stopped executes nothing |
| `LanPeerRuns.FlushedFileIsMemory` | src/torrent2000/engine/lan_peer_cache.py:118-140 | After any run and a flush, a process that loads the file at any later time reads just the peers memory would have given |
| `LanPeerRuns.FileAlwaysOk` | src/torrent2000/engine/lan_peer_cache.py:110-116 | At every moment, unless an update was held back, file and memory read the same from then on |
| `LanPeerRuns.FileIsEarlierMemory` | src/torrent2000/engine/lan_peer_cache.py:110-122 | Whatever is held back, the file holds just what memory held after the last write, and the loaded file before any |
| `LanPeerRuns.WritesAreThrottled` | src/torrent2000/engine/lan_peer_cache.py:45-53 | Two lists one process writes at once are thirty seconds of its clock apart |
| `LanPeerRuns.UnsavedIsYoung` | src/torrent2000/engine/lan_peer_cache.py:45-53 | When a list with local peers is held back, no such list recorded since the last immediate write is older than thirty seconds |
| `LanPeerRuns.OtherListsWriteNothing` | src/torrent2000/engine/lan_peer_cache.py:104-109 | A list without local peers writes nothing, leaves nothing to write, and changes no later read |
| `LanPeerRuns.ReadsAreFresh` | src/torrent2000/engine/lan_peer_cache.py:124-140 | A read returns every cached peer seen within the last 48 hours and no other |
| `LanPeerSightings.ReadsWhatWasThere` | src/torrent2000/engine/lan_peer_cache.py:93-128 | In one process a read returns an address with a port exactly if it was listed for the torrent within the last 48 hours, the last time with that port, or never listed and loaded from the file, not older than that |
| `LanPeerRuns.ExpiredPeersAreLetGo` | src/torrent2000/engine/lan_peer_cache.py:110-140 | A start, a read and a list with local peers leave nothing expired in memory, and such a list nothing expired in the file it writes |
| `LanPeerRuns.OnlyPrivateAddresses` | src/torrent2000/engine/lan_peer_cache.py:93-109 | Neither memory nor the file ever holds an address outside the private ranges |
| `LanPeerRuns.PrivateIsPrivate` | src/torrent2000/engine/lan_peer_cache.py:101-107 | Of a peer list just the private addresses are kept, each seen now |
| `LanPeerSpec.Rfc1918Ranges` | src/torrent2000/engine/lan_peer_cache.py:55-72 | The address test accepts exactly the three ranges of section 3 of RFC 1918 |
| `LanPeerSpec.OnlyV4IsPrivate` | src/torrent2000/engine/lan_peer_cache.py:62-72 | and no IPv6 or unparseable address |
| `LanPeerSpec.PurgeTwice` | src/torrent2000/engine/lan_peer_cache.py:132-140 | Purging early changes no later purge |
| `LanPeerCache.LanPeerCacheStore.RecordPeers` | src/torrent2000/engine/lan_peer_cache.py:93-116 | Records, purges, and writes or holds back by the throttle |
| `LanPeerCache.LanPeerCacheStore.GetPeers` | src/torrent2000/engine/lan_peer_cache.py:124-128 | The peers left after a purge |
| `LanPeerCache.LanPeerCacheStore.PurgeExpired` | src/torrent2000/engine/lan_peer_cache.py:132-140 | The nested deletion loops drop expired peers and torrents left empty, and nothing else |
| `LanPeerCache.LanPeerCacheStore.Flush` | src/torrent2000/engine/lan_peer_cache.py:118-122 | Writes an update that was held back |
| `LanPeerCache.LanPeerCacheStore.constructor` | src/torrent2000/engine/lan_peer_cache.py:86-91 | Loads the file and purges |
| `SunburstLayout.NestedSpanIsFlatSpan` | resources/web/spike/storage_sunburst_dialog.js:73-98 | Every file has the same angular span and colour in the nested drawing as in the flat one |
| `SunburstSpec.GroupingIsAPartition` | resources/web/spike/storage_sunburst_dialog.js:40-56 | Grouping loses no file and draws none twice |
| `SunburstSpec.GroupingKeepsTotal` | resources/web/spike/storage_sunburst_dialog.js:50 | The folders' sizes are those of all files |
| `SunburstLayout.FoldersFillTheCircle` | resources/web/spike/storage_sunburst_dialog.js:81-98 | The folder arcs of any files that hold a byte are not empty, follow one another without a gap, and run from the top through one full turn |
| `SunburstLayout.FilesFillTheCircle` | resources/web/spike/storage_sunburst_dialog.js:72-79 | So do the file arcs of the flat ring |
| `SunburstLayout.RegroupedFilesFillTheCircle` | resources/web/spike/storage_sunburst_dialog.js:82-98 | and those of the outer ring |
| `SunburstLayout.FolderArcsTile` | resources/web/spike/storage_sunburst_dialog.js:82-98 | Folder arcs follow one another without a gap from the top to the end |
| `SunburstLayout.FoldersEnd` | resources/web/spike/storage_sunburst_dialog.js:82-98 | The last folder arc ends at the total of all files |
| `SunburstLayout.CircleIsFull` | resources/web/spike/storage_sunburst_dialog.js:81-84 | That total is one full turn after the top |
| `SunburstLayout.FilesTileTheirFolder` | resources/web/spike/storage_sunburst_dialog.js:87-94 | The files of a folder are drawn from the start of its arc to its end |
| `SunburstLayout.RingIsContiguous` | resources/web/spike/storage_sunburst_dialog.js:73-79 | Within a ring each file starts where the one before ends, in its own colour |
| `SunburstLayout.SpanIsShare` | resources/web/spike/storage_sunburst_dialog.js:75 | A file's arc spans its share of the circle |
| `SunburstLayout.ShareOfShare` | resources/web/spike/storage_sunburst_dialog.js:90 | A file's share of its folder's share is its share of the whole |
| `SunburstLayout.RingArcsAppend` | resources/web/spike/storage_sunburst_dialog.js:87-94 | Files drawn folder by folder are one ring over the regrouped files |
| `SunburstLayout.FolderIsDoneIff` | resources/web/spike/storage_sunburst_dialog.js:18-22 | A folder is coloured done exactly if all its files are, partial exactly if some are not and some bytes are there |
| `SunburstSpec.SameGroupIff` | resources/web/spike/storage_sunburst_dialog.js:43-44 | Two files share a group exactly if both are loose, both have the same top folder, or one is loose and the other's top folder is named like the synthetic group |
| `SunburstSpec.RacineFolderSharesItsGroup` | resources/web/spike/storage_sunburst_dialog.js:43-44 | The files "a" and "(racine)/b" share a group |
| `SunburstSpec.FoldersInOrderOfAppearance` | resources/web/spike/storage_sunburst_dialog.js:40-56 | Folder i has the name of a file before which no file has it, and those files come in the order of the folders |
| `SunburstSpec.NestedIff` | resources/web/spike/storage_sunburst_dialog.js:16 | A path is nested exactly if it has a slash or a backslash; its top folder is what comes before the first of them |
| `SunburstSpec.GroupKeepsOrder` | resources/web/spike/storage_sunburst_dialog.js:42-54 | The files of a group stand in the order of all files |
| `SunburstLayout.FolderArcIsDoneIff` | resources/web/spike/storage_sunburst_dialog.js:85 | A folder's arc is coloured done exactly if the arcs of all its files are |
| `SunburstSpec.GroupedWithOneMore` | resources/web/spike/storage_sunburst_dialog.js:48-54 | A further file of a known folder keeps the grouping |
| `SunburstSpec.GroupedWithNewFolder` | resources/web/spike/storage_sunburst_dialog.js:46-53 | and so does the first file of a new one |
| `Sunburst.GroupByFolder` | resources/web/spike/storage_sunburst_dialog.js:40-56 | Each name once, in order of first appearance, each folder with just its files in order and their right sums |
| `Sunburst.DrawFlat` | resources/web/spike/storage_sunburst_dialog.js:72-79 | The advancing angle draws the ring given by cumulative sizes |
| `Sunburst.DrawNested` | resources/web/spike/storage_sunburst_dialog.js:82-98 | Likewise for both rings |
| `Sunburst.DrawFolderFiles` | resources/web/spike/storage_sunburst_dialog.js:88-94 | Shares of the folder's span are shares of the circle, also for an empty folder |
| `Sunburst.FileSpanIsItsShare` | resources/web/spike/storage_sunburst_dialog.js:90 | The nested span, with its case for an empty folder, is the flat one |
| `Sunburst.Survey` | resources/web/spike/storage_sunburst_dialog.js:66-70 | The one pass gives the total size and whether any path is nested |
| `Sunburst.DrawSunburst` | resources/web/spike/storage_sunburst_dialog.js:58-99 | Nothing for empty files, one ring without folders, else both rings over the grouped files |

## Left out

- User interface: widgets, bridges to the web page, canvas drawing, themes' looks, translations; of the sunburst only grouping, spans and colour class are modelled.
- libtorrent itself: it serves commands and delivers alerts in posting order, and owns opaque handles; alerts it drops past `alert_queue_size` are not modelled.
- `_add` when `add_torrent` raises: only adds that succeed are modelled; the restore of an entry that raises is.
- Session handlers' side tables: speed history, file list cache, categories, the provenance manifest and the name, path and totals of a row.
- `resume_data_is_complete` and `info_hash_hex` are given with each saved torrent; the wait for outstanding saves at shutdown and the deadline queue priority are not modelled.
- The largest of several equal files: the first one, as `max` picks it; libtorrent's file layout enters the piece-range theorems as a condition (files back to back, pieces covering them).
- Floating point: levels, thresholds, progress, weights and angles are exact; the float estimate of the level may be any integer, and `setProgress` of a value that is not a number is not modelled.
- Clocks are arguments; theorems about throttles and expiry assume that they do not go back.
- Qt timers: a countdown may elapse whenever it likes, also when none is pending; the dialog that offers to cancel is not modelled.
- SQLite, JSON files, SHA-1, `ipaddress` parsing and DPAPI: an atomic update, an identity round trip, and functions given as parameters.
- Malformed or hand-edited files, failed writes, and settings whose field set changed between two saves.
- `Session.SessionManager.Add`: does not reconnect the cached LAN peers of the torrent, because that only calls into libtorrent.
- `Session.SessionManager.DispatchAll`: of the handlers that may raise, only that of a finished alert whose handle is invalid is modelled, not one whose file access fails.
- `SettingsHistory.SettingsFiles.RestoreSettingsSnapshot`: does not rebuild nested settings from JSON, because a field's value is opaque.
- `LanPeerCache.LanPeerCacheStore.GetPeers`: returns a set of pairs, so the order of the list is not modelled.
- `PeerReputation.PeerReputationTracker.Observe`: the inner dictionaries are rebuilt as maps instead of being updated in place.
- `Leveling.LevelForTotalBytes`: the estimate is a parameter instead of a float logarithm.
- The order in which a dictionary lists torrents: loops over dictionaries take any order.
- Simple on/off services (battery, memory, turtle mode, bandwidth window, disk space, known disk, network profile), stores of categories, tags, rules and searches, and the danger scanner's table: they would only add easy members.
- Network fetch, remote access, antivirus, webhooks, clipboard, access rights and startup registration: input, output and foreign calls.
