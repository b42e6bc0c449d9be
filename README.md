# Disk-cleanup watchdog, modelled in Dafny

The program is a one-shot watchdog. It keeps a base directory from filling its
volume by deleting old data. The base directory holds categories, each category
holds item-groups, and each item-group holds the items. A run does this:

- It discards `cleanup.log` if its last modification is more than seven days old.
- It probes the free percentage of the volume that holds the base directory.
- If free space is below 20%, it starts the cleanup loop. Each round of the loop
  probes again and stops once free space is above 25%. Otherwise it sweeps every
  item-group of every category and deletes that group's oldest subfolder (by
  creation time).
- Each probe decision, sweep start, deletion and empty item-group appends a
  line to the log. Discarding the log, skipping an entry that is not a
  directory, and an I/O error log nothing.

The model has one module per part of `src/main.rs`:

- `Wrappers` (wrappers.dfy): `Option` and `IoResult`.
- `Storage` (storage.dfy): `check_storage`.
  - The disk table is an input, in enumeration order.
  - The percentage is a `Ratio`: a real number, or the infinity or NaN that a
    zero-capacity volume yields. It is compared the way IEEE comparison does.
  - `CheckStorage` is the loop of the source. It is proved equal to `Probe`.
    `Probe` is the definition built on the first-match search `Find`.
- `Oldest` (oldest.dfy): `get_oldest_folder`.
  - A directory listing is a snapshot: its entries in yield order, plus whether
    the listing then breaks off. An entry whose metadata cannot be read is not a
    directory (as `is_dir` reports it), and a directory whose creation time
    cannot be read has no time.
  - `GetOldestFolder` is the source's loop, with its strict `<`. It is proved
    equal to `OldestOf`.
  - `OldestOf` is built on the fold `OldestIndex`. `OldestIndexMeaning` proves
    that the fold picks the first oldest directory.
- `Logging` (logging.dfy):
  - the log lines and their texts;
  - the seven-day staleness test of `clean_log`.
- `Cleanup` (cleanup.dfy): `clean_disk`.
  - A run is described by a `Trace`: the lines it logs, the folders it deletes
    and how it ends (`Going`, `Done`, or `Failed` on an I/O error).
  - `Sweep` and `SweepGroups` are the nested loops of one sweep. They are proved
    equal to `SweepTrace`.
  - `CleanDisk` is the outer loop. It is proved equal to `CleanRun`.
  - `CleanRun` takes the probe snapshots seen by successive rounds. Between
    rounds the tree loses exactly the deleted items (`Pruned`).
- `Entrypoint` (entrypoint.dfy): `main`, as `Run`.
- `Scenario` (scenario.dfy): a worked run.
  - Category A holds item-group A1 with two folders; category B holds no
    item-groups.
  - The run goes through three sweeps and then exits.

Two behaviours of the code are worth knowing:

- A category with no item-groups logs nothing. Only an item-group that holds
  no directory logs "No subfolders found" (src/main.rs:100-114), as
  `Scenario.TwoDeletionsThenNothingLeft` shows.
- The probe takes the first disk whose mount point is a string prefix of the
  path, not the longest (`Storage.FirstMatchIsNotLongest`). It then reads the
  first disk with that name (`Storage.SharedNameReadsEarlierDisk`).

## Model

| member | source | states |
|---|---|---|
| Storage.Percent | src/main.rs:7-9 | The free percentage is a number exactly when the total is positive, and then that number times the total is 100 times the available space. Free space on a zero total gives infinity, and 0 / 0 gives NaN |
| Storage.PercentInRange | src/main.rs:7-9 | For a volume whose available space does not exceed its positive total, the free percentage is a finite number between 0 and 100 |
| Storage.Find | src/main.rs:13-18 | The result is the index of the first element satisfying the predicate, and None means no element satisfies it |
| Storage.CheckStorage | src/main.rs:11-30 | The probe loop returns exactly `Probe`: the percentage of the first disk named like the first prefix-mounted disk, or None |
| Storage.ProbePresent | src/main.rs:13-29 | A percentage is reported if and only if some disk is mounted on a prefix of the base directory and the first such disk has a valid name |
| Storage.ProbeReadsFirstNamed | src/main.rs:13-27 | With `i` the first prefix match and `j` the first disk sharing its name, `j` is at most `i` and the probe reports disk `j`'s percentage |
| Storage.FirstMatchIsNotLongest | src/main.rs:16 | With `/` listed before `/data`, a path under `/data` is measured on `/`, so the first match wins over the longest one |
| Storage.UnnamedFirstMatchHidesLater | src/main.rs:16-18 | A first match whose name is not valid UTF-8 yields no volume, even though a later disk also matches |
| Storage.SharedNameReadsEarlierDisk | src/main.rs:20-27 | The name lookup reads an earlier, different disk that carries the same name |
| Oldest.OldestUnique | src/main.rs:44 | At most one entry is the first-listed oldest directory |
| Oldest.OldestIndexMeaning | src/main.rs:36-49 | The fold finds nothing if and only if no entry is a directory. Otherwise it finds a directory that no directory predates and that every earlier directory strictly postdates |
| Oldest.OldestOfMeaning | src/main.rs:32-51 | The scan fails if and only if the listing breaks off or a directory's creation time is unreadable. It returns Ok(None) if and only if no entry is a directory. Otherwise it returns the path of the first-listed oldest directory |
| Oldest.GetOldestFolder | src/main.rs:32-51 | The scanning loop, updating only on a strictly earlier time, returns exactly `OldestOf` |
| Oldest.Dirs | src/main.rs:40 | The kept entries are directories of the listing |
| Oldest.DirsKeepOldest | src/main.rs:40-47 | Dropping the non-directories keeps every creation time readable and does not change which entry is chosen |
| Oldest.DirHeadKeepsOldest | src/main.rs:40-47 | The step of the previous property when the first entry is a directory |
| Oldest.DirsContains | src/main.rs:40 | Every directory of a listing survives the dropping of non-directories |
| Oldest.FilesAreIgnored | src/main.rs:40 | The result, error cases included, is the same as for the listing with its non-directories removed |
| Oldest.TieGoesToFirstListed | src/main.rs:44 | Of two directories with equal creation times, the first listed is chosen; a file in between is skipped even though its time is unreadable |
| Oldest.EarliestCreatedIsChosen | src/main.rs:44-46 | The directory with the earliest creation time is chosen, though it is listed last |
| Logging.Text | src/main.rs:85-145 | The message written for each line, as at lines 85, 89, 104, 110, 139, 142 and 145. This is a definition with no contract of its own; what it guarantees is stated by `TextIdentifiesLine` |
| Logging.TextIdentifiesLine | src/main.rs:85-145 | No two lines share a message: equal texts come from equal lines, folder and item-group paths included |
| Logging.RemovesLog | src/main.rs:68-79 | The log is deleted if and only if its metadata and modification time are readable and it is in the past by strictly more than 604800 seconds. A time in the future counts as age zero |
| Logging.StalenessBoundary | src/main.rs:72 | The limit is 604800 seconds. A log exactly that old is kept; one nanosecond older is deleted |
| Cleanup.GroupStepMeaning | src/main.rs:100-114 | An item-group fails the sweep if and only if it is a directory whose listing cannot be read. A non-directory is skipped silently. A deletion is of exactly one item, the first-listed oldest directory, and the group's one line is the "Deleting folder" line naming it. Nothing is deleted if and only if the readable group holds no directory, and then "No subfolders found" is its one line |
| Cleanup.SweepGroups | src/main.rs:96-116 | The loop over one category's item-groups returns exactly the in-order walk of `GroupStep`, stopping at the first failure or at a broken listing |
| Cleanup.Sweep | src/main.rs:91-118 | The nested loops of one sweep return exactly `SweepTrace`, the in-order walk over categories and their item-groups |
| Cleanup.SweepNeverDone | src/main.rs:91-118 | A sweep either completes or fails; it never ends the loop |
| Cleanup.WalkNeverDone | src/main.rs:91-118 | An in-order walk of steps that never end the loop does not end it either |
| Cleanup.WalkLogsDeletions | src/main.rs:101-105 | In an in-order walk, the "Deleting folder" lines name exactly the deleted folders, in order |
| Cleanup.SweepLogsEachDeletion | src/main.rs:101-105 | In a sweep, the "Deleting folder" lines name exactly the deleted folders, in order, and there are no more deletions than lines |
| Cleanup.WalkLineCount | src/main.rs:95-116 | A completed walk logs as many lines as the weights of its steps add up to |
| Cleanup.SweepLinePerGroup | src/main.rs:95-116 | A completed sweep logs exactly one line per item-group it visits and deletes at most one item per item-group |
| Cleanup.PruneGroupScope | src/main.rs:101-105 | Pruning keeps the group's path, kind and listing status. It leaves the group unchanged when the sweep deletes nothing from it. Otherwise it removes exactly the logged item, the first-listed oldest directory, and keeps every other item in order |
| Cleanup.PrunedScope | src/main.rs:105 | After a sweep, every category keeps its path, kind and listing status. Non-directory categories are untouched, and each item-group of a directory category is pruned |
| Cleanup.CleanDisk | src/main.rs:81-122 | The loop returns exactly `CleanRun`: per round, the probe test, then "Cleaning up", the sweep, and the rounds over the pruned tree. An I/O error stops the loop, and so does the end of the probe snapshots |
| Cleanup.ExitsCleanup | src/main.rs:83-84 | The loop's exit test: an absent volume counts as 100% and so exits. A number exits if and only if it is strictly above 25. Infinity exits and NaN does not |
| Cleanup.ExitOnlyAboveThreshold | src/main.rs:82-87 | The loop exits normally only at a probe above 25% (an absent volume counting as 100%), and only at the first such probe |
| Cleanup.ExitLoggedLast | src/main.rs:85-86 | A loop that exits normally logs "Exiting cleanup" as its last line |
| Cleanup.CutOffNeverExited | src/main.rs:82-87 | A run still going when the snapshots run out saw no probe above 25% |
| Cleanup.ImmediateExit | src/main.rs:83-86 | A first probe above 25%, or no volume found, ends the loop at once with one line and no deletion |
| Entrypoint.StartsCleanup | src/main.rs:138 | `main` starts a cleanup if and only if the percentage is a number strictly below 20; infinity and NaN never start one |
| Entrypoint.Run | src/main.rs:124-149 | Four things across the three outcomes. A stale log's old lines are dropped. No volume gives "Disk not found", no deletion and a normal end. A percentage not below 20% gives the percentage line and "Sufficient", with no deletion. Below 20%, the percentage line and "Starting cleanup" come first, then exactly the loop's lines, deletions and outcome. Any deletion or abnormal end implies a probe below 20% |
| Entrypoint.HysteresisBand | src/main.rs:138 | Between 20% and 25% (the loop's threshold at line 84), `main` does not start a cleanup and a running cleanup does not stop |
| Entrypoint.StartThresholdExamples | src/main.rs:138 | 22% free is sufficient, 15% starts a cleanup, and a zero-capacity volume (infinity or NaN) never starts one |
| Scenario.ProbeExamples | src/main.rs:7-9 | A volume with 10 of 100 bytes free reports 10%, which does not exit the loop; one with 30 free reports 30%, which does |
| Scenario.OlderFirst | src/main.rs:44 | Of two folders, the one created strictly earlier is chosen |
| Scenario.GroupSteps | src/main.rs:100-114 | Item-group A1 holding the two folders deletes the older one; holding the newer one alone, deletes it; empty, logs "No subfolders found" |
| Scenario.SweepOf | src/main.rs:91-118 | Over the scenario tree, a sweep does exactly what item-group A1 does. Category B, with no item-groups, logs nothing |
| Scenario.PrunedOf | src/main.rs:101-105 | After a sweep, A1 has lost exactly its oldest item |
| Scenario.PrunedEmpty | src/main.rs:101-105 | A sweep over an empty A1 leaves the tree unchanged |
| Scenario.ThirdRound | src/main.rs:82-118 | With A1 empty, a low probe and then a high one: "Cleaning up", "No subfolders found" for A1, then "Exiting cleanup", with nothing deleted |
| Scenario.SecondRound | src/main.rs:82-118 | With only the newer folder in A1: one round deletes it, then the last round runs as above |
| Scenario.TwoDeletionsThenNothingLeft | src/main.rs:81-119 | With both folders, three low probes and a high one: the older folder is deleted, then the newer, then A1 is found empty, then the loop exits. Exactly these seven lines are logged and exactly these two folders deleted, in that order |

## Left out

- Writes are taken to succeed. These are the log appends (src/main.rs:58-66),
  `remove_dir_all` in `delete_folder` (src/main.rs:53-56), and `remove_file` in
  `clean_log`. The I/O errors they could raise, which would end the run, are not
  modelled. Every read-side error is modelled: an unreadable directory, a
  broken listing, an unreadable creation time. Unreadable metadata makes
  `is_dir` report false (src/main.rs:40), so such an entry is skipped; the
  metadata becoming unreadable between lines 40 and 41 is modelled as an
  unreadable creation time.
- The host's disk table (sysinfo) is an input. The loop gets one snapshot per
  round, given in advance. Those snapshots are not tied to the deletions: how
  much space a deletion frees is not modelled.
- CheckStorage: computes the percentage in real arithmetic, not in f64. The
  `u64`-to-`f64` conversions and the rounding of the division are not
  modelled; the infinity and NaN of a zero total are.
- Cleanup.GroupStepMeaning: a `Trace` keeps the log lines and the deletions
  as two separate sequences, so the order between them (the "Deleting folder"
  line is written before the folder is removed, src/main.rs:104-105) is not
  represented. It would show only when a deletion fails, and those failures
  are not modelled.
- Disk: capacities are unbounded naturals, not `u64`.
- Logging.Text: CurrentFree, the two-decimal rendering of the percentage line
  (`{:.2}`), is not modelled. That line records the `Ratio` itself.
- CleanDisk: the loop termination is bounded by the probe snapshots. The run
  stops, still `Going`, when they run out. The source's loop has no bound and
  may go on forever when nothing remains to delete.
- The filesystem is a static snapshot of the base directory's three levels. It
  changes only by the modelled deletions. Concurrent changes, symlinks (which
  `is_dir` follows) and paths that alias one another are not modelled. The
  second level of a deleted folder is not modelled either.
- The clock: the log's age is an input (`Logging.Age`), as is the creation time
  of each entry.
- The `.env` file and the `DIRPATH`/`LOGPATH` variables are not modelled, nor
  the aborts when they are missing (src/main.rs:125-128). The base directory is
  the tree's path, and the log is the sequence of lines the model returns.
- The lossy UTF-8 conversions of paths and mount points are not modelled.
  Paths are strings. A disk name that is not valid UTF-8 is `None`, as in the
  source.
