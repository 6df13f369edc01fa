# datasweep core in Dafny

A model of the core of datasweep, a desktop disk-cleanup and monitoring tool,
with proofs about that model. It covers three parts.

- **The file scanner**, with these operations:
  - the mtime-keyed digest cache (`calculate_file_hash`, `load_cache`);
  - the per-directory scan and its parallel reduction (`scan_directory`,
    `parallel_scan`);
  - duplicate grouping by digest (`find_duplicates`);
  - the per-extension statistics (`get_file_stats`).
- **The disk monitor**, with these operations:
  - the throttled sampler with its bounded FIFO history (`get_disk_health`);
  - the monitoring tick that feeds the 24-hour usage and I/O histories;
  - the three-level health classification of the report and the dashboard.
- **The cleanup window**, with these operations:
  - the parsing of the criteria texts;
  - the per-file selection test `suppr_crit` and the preview that lists what
    a cleanup would delete;
  - the duplicate sweep `supprimer_doublons`;
  - the folder analysis `afficher_analyse`;
  - the next-run computation of scheduled tasks.

Everything the operating system answers is an input to the model:
- path existence, `stat` results, file contents (as digests) and directory
  listings;
- `psutil` readings and clock readings;
- the order in which thread-pool tasks complete.

An answer that raises is `None` or an error constructor.

Modules:
- `Wrappers`: `Option`.
- `Seqs`: sums, flattening, the stable descending sort and the permutation lemmas.
- `Text`: ASCII `lower`, `strip`, `split`, the substring test and decimal text.
- `PathExt`: POSIX `os.path.splitext`.
- `HashCache`, `Scanner`, `Duplicates`, `Tally`, `FileStats`: the file scanner.
- `DiskMonitor`, `HealthReport`: the disk monitor.
- `Criteria`, `Sweep`, `Analysis`, `Schedule`: the cleanup window.

## Model

| member | source | states |
|---|---|---|
| PathExt.ExtCharacterization | source/file_scanner.py:152-153 | `splitext`'s extension is non-empty exactly when it ends the path, starts with the only dot in it, contains no separator, and is preceded in the last component by a character other than a dot. |
| PathExt.SplitExt | source/file_scanner.py:152 | The loop that scans back for the last dot and separator splits the path into root and extension. The two concatenate back to the path, and the extension is `Ext`. |
| PathExt.NoDotNoExt | source/file_scanner.py:152-153 | A path whose last component has no dot has no extension. |
| PathExt.LeadingDotsNoExt | source/file_scanner.py:152-153 | A name made only of leading dots and one dot-free part (a hidden file) has no extension. |
| PathExt.ExtIgnoresDirectory | source/Projet.py:843-846 | The extension of `dir/name` is the extension of `name`. Dots in the directory never count. |
| HashCache.KeyRoundTrip | source/file_scanner.py:38-39 | The key `path:mtime` splits at its last colon back into the path and the mtime text, even when the path contains colons. |
| HashCache.CacheKeyInjective | source/file_scanner.py:38-39 | Two different (path, mtime) pairs never share a cache key. |
| HashCache.HashFile | source/file_scanner.py:34-56 | Every entry already in the cache survives. A hit returns the stored digest and leaves the cache unchanged. A miss stores the freshly computed digest under exactly one new key. The result is None exactly when `getmtime` fails, or when the file must be read and reading fails; the cache is then unchanged. |
| HashCache.HitIgnoresContent | source/file_scanner.py:41-42 | On a hit the file's content is never consulted. |
| HashCache.WarmCacheHits | source/file_scanner.py:38-52 | After a successful hash, asking again against any cache that kept the entry is a hit with the same digest. |
| HashCache.LoadCache | source/file_scanner.py:16-24 | A missing cache file keeps the current cache. An unreadable one resets the cache to empty. A readable one replaces it. |
| HashCache.LoadedEntriesHit | source/file_scanner.py:16-42 | After a readable cache file is loaded, a file whose current key it stored hashes to the stored digest as a hit, without its content being read. |
| HashCache.StartupCache | source/file_scanner.py:10-13 | After construction the cache is empty unless a readable cache file held entries. |
| Scanner.ScanEntries | source/file_scanner.py:60-72 | At most one record per entry. Every record is a regular-file entry with that exact stat. |
| Scanner.ScanDirectory | source/file_scanner.py:58-72 | A directory that cannot be opened gives no files. Otherwise every record comes from a regular-file entry of the listing. |
| Scanner.ScanHealthyListing | source/file_scanner.py:63-69 | With no raising entry, every regular file is recorded with its stat, and there is exactly one record per regular file. |
| Scanner.ScanKeepsListingOrder | source/file_scanner.py:63-69 | Records come in listing order: after a healthy listing, a further regular file adds its record at the end, and any other entry adds nothing. |
| Scanner.ScanPrefix | source/file_scanner.py:63-71 | An error ends the loop but keeps what was gathered. The result on a listing is a prefix of the result on any longer listing. |
| Scanner.ScanStopsAtError | source/file_scanner.py:70-72 | Nothing after the first raising entry is recorded. |
| Scanner.ParallelScan | source/file_scanner.py:74-110 | Whatever order the tasks complete in: the files are exactly the union of the per-directory results, the total is their size sum, and after the k-th completed task the progress is exactly `k / len(dirs) * 100`; these values rise strictly to 100. |
| Scanner.TotalIndependentOfOrder | source/file_scanner.py:93-97 | The total size does not depend on the completion order. |
| Duplicates.HashPass | source/file_scanner.py:117-125 | One result per file, in order. The cache only grows. Every digest returned is stored under its file's key. |
| Duplicates.HashPassIsPerFile | source/file_scanner.py:117-125 | Each file's result is what hashing that file alone against the starting cache returns. The order of the tasks and the entries earlier tasks add never change an answer. |
| Duplicates.HashPassOneDigestPerFile | source/file_scanner.py:117-125 | A pass reports each file with one digest, even when a file is listed twice. |
| Duplicates.WarmPassHitsEverything | source/file_scanner.py:117-119 | A second pass against the cache the first pass left hits for every file and returns the same results. |
| Duplicates.GroupAll | source/file_scanner.py:129-136 | A digest has a group exactly when it is non-empty and some file was reported with it. Its group holds exactly those files, with multiplicity. |
| Duplicates.MembersPerm | source/file_scanner.py:129 | Grouping depends only on the multiset of results, not on the completion order. |
| Duplicates.FindDuplicates | source/file_scanner.py:112-147 | A digest is kept exactly when it is non-empty and shared by two or more results. Each group holds exactly the files with that digest, and the cache is the one the hashing pass left. |
| Duplicates.GroupedFilesHaveTheirDigest | source/file_scanner.py:132-136 | A grouped file was reported with its group's digest. |
| Duplicates.AtMostOneGroup | source/file_scanner.py:132-147 | When each file has one digest, no file is in two groups. |
| Duplicates.FailedFilesAreUngrouped | source/file_scanner.py:132 | A file whose hashing failed is in no group. |
| Duplicates.NoFileInTwoGroups | source/file_scanner.py:112-147 | No file of `find_duplicates`' answer is in two groups. |
| Duplicates.GroupedFilesHashToTheirGroup | source/file_scanner.py:112-147 | Every grouped file is one of the files given, and hashing it alone against the starting cache gives its group's digest. |
| Duplicates.FailedFileUngrouped | source/file_scanner.py:112-147 | A file whose hashing fails is in none of `find_duplicates`' groups. |
| Tally.TallyKeys | source/file_scanner.py:150-163 | The dictionary has one entry per key, and a key has an entry exactly when some item carries it. |
| Tally.TallyCounts | source/file_scanner.py:155-163 | Each entry holds the number and the total size of the items with its key. |
| Tally.TallyLatest | source/Projet.py:852-853 | Each entry's timestamp is the latest among its key's items. |
| Tally.TallySums | source/file_scanner.py:155-163 | The counts add up to the number of items and the sizes to their total size. |
| Tally.TableEntries | source/file_scanner.py:165 | Sorting keeps exactly the dictionary's entries, one per key. |
| FileStats.SentinelOnlyForNoExtension | source/file_scanner.py:152-153 | The `sans extension` bucket holds exactly the files without an extension. It never collides with a real one. |
| FileStats.GetFileStats | source/file_scanner.py:149-165 | The rows are sorted by size, largest first, with one row per extension present. Each row counts and sizes exactly its extension's files. Counts sum to the number of files and sizes to the total size. |
| DiskMonitor.Temperature | source/disk_monitor.py:39-47 | The first `nvme` reading when that sensor is present, even if it has no reading. Otherwise the first `coretemp` reading, else none. A sensor error or an empty reading list gives none. |
| DiskMonitor.NvmeTakesPrecedence | source/disk_monitor.py:42-45 | When an `nvme` sensor is present, what `coretemp` reads never changes the temperature. |
| DiskMonitor.GetDiskHealth | source/disk_monitor.py:23-69 | A missing path gives None. A throttled call returns the newest stored sample and changes nothing. A failed OS read changes nothing. An OS read that raises gives None. A fresh sample is stamped `now` and carries the usage answer's total, used, free and percentage, the I/O counters' read and write bytes (0 when there are no counters) and the sensors' temperature. It becomes the last update, and is pushed onto the history, dropping at most one oldest entry. The history grows only while it is under the bound. |
| DiskMonitor.SensorsDoNotFailSample | source/disk_monitor.py:40-47 | Sensor answers never decide whether a sample is taken. They only change its temperature. |
| DiskMonitor.InitValid | source/disk_monitor.py:12-21 | The constructor's state (no samples, last update 0, interval 60) satisfies the sampler invariant, for any history size. |
| DiskMonitor.GetDiskHealthKeepsValid | source/disk_monitor.py:31-64 | The sampler keeps three facts: the history within its bound, samples spaced by at least the interval, and the newest sample stamped with the last update. |
| DiskMonitor.RunKeepsNewest | source/disk_monitor.py:60-62 | After any sequence of calls the history is the newest `history_size` samples ever taken, oldest first. |
| DiskMonitor.PruneAppend | source/disk_monitor.py:90-98 | An entry newer than the cutoff appended to a history survives the prune as its last entry, after the surviving older entries in their order. |
| DiskMonitor.Prune | source/disk_monitor.py:96-98 | An entry is kept exactly when it is newer than the cutoff. |
| DiskMonitor.PruneConcat | source/disk_monitor.py:97-98 | Pruning works entry by entry and keeps order: pruning a concatenation is concatenating the pruned parts. |
| DiskMonitor.PruneSingleton | source/disk_monitor.py:97-98 | A single entry is kept exactly when it is newer than the cutoff. |
| DiskMonitor.PruneDropsFront | source/disk_monitor.py:96-98 | On a chronological history the prune drops only a prefix of entries, all at or before the cutoff. |
| DiskMonitor.HourlyWindow | source/disk_monitor.py:96-98 | With one entry per hour, exactly the newest 24 survive, so 30 hourly entries leave 24. |
| DiskMonitor.Tick | source/disk_monitor.py:78-98 | Only when a sample comes back, its usage and its I/O megabytes are appended at `now`. Each history then becomes its entries of the last 24 hours, in their order, followed by the new entry. The sample history and last update are the sampler's, and the interval and history bound do not change. |
| DiskMonitor.TickKeepsValid | source/disk_monitor.py:78-98 | Every iteration of the monitor loop keeps the sample-history invariant: within its bound, spaced by the interval, newest stamped with the last update. |
| DiskMonitor.TickRecordsNewest | source/disk_monitor.py:83-98 | After a tick with a sample, each history holds exactly its entries of the last 24 hours and the new one, and the new usage entry and the new I/O entry are each the newest. |
| DiskMonitor.TickKeepsChronological | source/disk_monitor.py:83-97 | With a clock that never goes back, the usage history stays in time order. |
| HealthReport.Classify | source/disk_monitor.py:142-146 | Critique exactly when usage is above 90% or the trend is above 5. Attention exactly when neither holds but usage is above 80% or the trend is above 2. Bon otherwise. An undefined trend compares false. |
| HealthReport.ClassifyMonotone | source/disk_monitor.py:142-146 | More usage or a steeper trend never gives a milder status. |
| HealthReport.DashboardStatus | source/Projet.py:78-83 | The dashboard's level is decided by the usage percentage alone, at 90 and 80. |
| HealthReport.DashboardAgreesWithReport | source/Projet.py:78-83 | The dashboard equals the report's status for a flat or undefined trend. It is never more severe than the report. |
| HealthReport.ClassifyExamples | source/disk_monitor.py:142-146 | The cases 95% gives Critique, 85% gives Attention, 50% gives Bon, and 90% exactly gives Attention. |
| HealthReport.GenerateHealthReport | source/disk_monitor.py:128-156 | No sample gives the empty report. Otherwise the report carries the sample's usage, free space and temperature, and a status classified from the usage and the trend. The trends are the history's trends, and both are 0 when the history is empty. |
| HealthReport.ReportReadsCurrentHistory | source/disk_monitor.py:130-140 | With a positive history bound, a report is read from a history that ends with the reported sample, and its trends are that history's. |
| HealthReport.EmptyHistoryReportIsDashboard | source/disk_monitor.py:138-146 | With an empty history the report's status is the dashboard's. |
| Criteria.StripAll | source/Projet.py:582 | Blank pieces are dropped, and the rest are stripped. |
| Criteria.StripAllSingle | source/Projet.py:582 | One piece is kept, stripped, exactly when it is not blank. |
| Criteria.StripAllAppend | source/Projet.py:582 | The pieces are handled one by one, in order: the result on a concatenation is the concatenation of the results. |
| Criteria.ParseListRoundTrip | source/Projet.py:582 | A list of clean entries written with commas reads back as the same list. |
| Criteria.ParseExtensions | source/Projet.py:588 | Empty text gives no filter. Otherwise one non-empty lower-case entry per non-blank piece. |
| Criteria.ParseExtensionsRoundTrip | source/Projet.py:588 | A list of clean lower-case extensions written with commas reads back as the same list. |
| Criteria.MinSizeBytes | source/Projet.py:589 | Text that is not all digits means no minimum. The minimum is always a whole number of megabytes. |
| Criteria.MinSizeRoundTrip | source/Projet.py:589 | A number of megabytes written in decimal reads back as that many megabytes in bytes. |
| Criteria.MinSizeExamples | source/Projet.py:589 | "10" gives 10 MB. "", "-1" and "1.5" give no minimum. |
| Criteria.SupprCritAsWritten | source/Projet.py:679-694 | An excluded path is rejected without touching the disk. A file is selected exactly when it is not excluded, its creation time reads, the filter is empty or lists its extension as it appears in the path, it meets a set minimum size, and its date is strictly on the mode's side of the reference. The test raises exactly when the path is not excluded and either the creation time fails, or the filter admits it, a minimum is set and the size fails. |
| Criteria.AsWrittenMissesUpperCase | source/Projet.py:684-687 | As written, a file whose extension has an upper-case letter is never selected once an extension filter is set. |
| Criteria.UpperCaseExtensionExample | source/Projet.py:684-687 | `img/PHOTO.JPG` with the filter ".jpg" is rejected as written and selected once corrected. |
| Criteria.SupprCrit | source/Projet.py:679-694 | A file is selected exactly when all of these hold: no exclusion text occurs in its path; its creation time is read; its lower-cased extension passes the filter; it reaches the minimum size if one is set; and its creation time is strictly before or after the date, as the mode says. The call raises exactly when the creation time, or a needed size, cannot be read. |
| Criteria.AsWrittenAgreesOnLowerCase | source/Projet.py:684-687 | The as-written and the corrected test agree whenever the extension has no upper-case letter. |
| Criteria.StricterSelectsLess | source/Projet.py:679-694 | More exclusions, a larger minimum or a narrower filter never select a file the looser criteria reject, both as written and with the lower-cased extension. |
| Criteria.UnknownModeSelectsNothing | source/Projet.py:690-694 | A mode other than "avant" and "apres" selects nothing, both as written and with the lower-cased extension. |
| Criteria.Scan | source/Projet.py:627-645 | Under any selection test, the walk aborts exactly when some test raises. Otherwise a path is listed exactly when its file is selected and its size and creation time can be read. |
| Criteria.ScanSnoc | source/Projet.py:629-641 | Listing keeps walk order: a file walked after the others adds its path at the end when it is selected and listable. |
| Criteria.PreviewFiles | source/Projet.py:573-645 | With `suppr_crit` as written: a missing directory shows the error and an unparsable date aborts. Otherwise the preview aborts exactly when the test raises for some walked file, and a path is listed exactly when its walked file passes the test under the criteria read from the form and its size and creation time can be read. |
| Criteria.PreviewFilesCorrected | source/Projet.py:573-645 | The same preview with the corrected test, which lower-cases the extension: the same abort and listing conditions, under the corrected test. |
| Criteria.PreviewsAgreeOnLowerCase | source/Projet.py:684-687 | When no walked file's extension has an upper-case letter, the as-written and the corrected preview are the same. |
| Criteria.ExcludedNeverListed | source/Projet.py:680-681 | Under either test, an excluded file is never listed and never makes the preview abort. |
| Sweep.Step | source/Projet.py:744-755 | An unreadable file changes nothing. A repeated digest lists the file. A new digest remembers the file as the first with that digest. |
| Sweep.SweepFacts | source/Projet.py:738-758 | The loop remembers exactly the digests read. It lists exactly the readable files whose digest appeared earlier, in walk order. |
| Sweep.SweepKeepsFirst | source/Projet.py:747-753 | Each remembered digest maps to the first file that had it. |
| Sweep.SweepCount | source/Projet.py:738-758 | Listed duplicates plus distinct digests make up the readable files. |
| Sweep.KeptNeverListed | source/Projet.py:747-753 | With distinct paths, the file kept for each digest is never listed for deletion. |
| Analysis.RowKey | source/Projet.py:846-848 | The `(sans extension)` row holds exactly the names without an extension. |
| Analysis.AnalyseAsWritten | source/Projet.py:835-888 | The rows and TOTAL's count are the corrected analysis's. TOTAL's size is the sum of every size read. TOTAL's count is the sum of the rows' counts. |
| Analysis.AsWrittenTotalGap | source/Projet.py:845-859 | As written, TOTAL's size exceeds the rows' size sum by exactly the sizes of the files whose modification time could not be read. |
| Analysis.AsWrittenTotalExample | source/Projet.py:845-859 | One 5-byte file whose modification time fails gives no row but a TOTAL of 5 bytes. |
| Analysis.Analyse | source/Projet.py:835-888 | The rows are sorted by size, one per key. Each row counts and sizes exactly its key's files and carries their latest modification time. TOTAL's count and size are the rows' sums. |
| Analysis.AgreeWhenNothingLost | source/Projet.py:845-859 | When every modification time can be read, the as-written and the corrected analysis coincide. |
| Schedule.PyInt | source/Projet.py:957 | After skipping the whitespace `int()` skips (Python's whitespace except U+001C to U+001F), the text parses exactly when it is decimal digits, optionally after one `+` or `-`. The value is the digits' decimal value, negated after `-`. |
| Schedule.SeparatorNotSkipped | source/Projet.py:957 | An information separator before the digits makes `int()` fail, although `str.strip` would remove it. |
| Schedule.PyIntRoundTrip | source/Projet.py:957 | Every integer written in decimal reads back as itself. |
| Schedule.ParseTime | source/Projet.py:957-959 | A time parses exactly when the text splits at `:` into two pieces that `int()` reads as an hour in 0..23 and a minute in 0..59; the parsed hour and minute are those values. |
| Schedule.ParseTimeRoundTrip | source/Projet.py:957 | A time written "HH:MM" reads back as that hour and minute. |
| Schedule.ParseWithoutColon | source/Projet.py:957 | "9h00" does not parse. |
| Schedule.AddDays | source/Projet.py:962-967 | Adding `n` days moves the date exactly `n` days on and keeps the time of day. |
| Schedule.NextRun | source/Projet.py:956-969 | The result exists exactly when the time parses. It has the given hour and minute and `now`'s seconds. For a known frequency it is after `now` and at most one period later. For any other frequency it is today. It is always today's run at the given time, or that run one period later. |
| Schedule.NextRunIsEarliest | source/Projet.py:959-967 | For a known frequency the result is the first or second run of the series "today at the given time, then every period". It is after `now`, and it is no later than any run of the series that is after `now`. |
| Schedule.DailyPastExample | source/Projet.py:961-963 | At 11:00 a daily task set for 10:00 runs tomorrow at 10:00. |
| Schedule.WeeklyNowExample | source/Projet.py:961-965 | A weekly task due exactly now runs in seven days. |
| Schedule.UnknownFrequencyExample | source/Projet.py:961-967 | An unknown frequency leaves the run today, even in the past. |

## Left out

- I/O and external libraries are inputs to the model, not modelled:
  `os.walk`, `os.scandir`, `stat` calls, file reading and MD5 hashing.
  Contents enter only as digests, as a function of path and mtime.
- `pickle` serialisation and `save_cache` are left out. The cache file enters
  only as absent, unreadable or stored entries.
- Thread-pool concurrency is not modelled as threads. The completion order of
  `as_completed` is an input: any permutation of the submitted results.
  `HashPass` runs the hashing tasks one after another against a shared cache;
  real threads may interleave two misses on the same key.
- Progress callbacks of `find_duplicates` and of the GUI loops, logging, the
  Tkinter widgets, plotting, and the PDF/Excel export are left out.
- The actual deletion is not modelled: `confirm_suppression`, the scheduled
  automatic cleanup and `shutil.rmtree`.
- Task scheduling through `schedule`, task persistence in `tasks.json`, the
  monitoring thread's sleep, `start_monitoring`/`stop_monitoring` and the
  callback are left out.
- `get_usage_trend`'s pandas hourly resampling is a parameter of
  `GenerateHealthReport`. A NaN mean is `None`, which compares false.
- `generate_health_report` also returns `{}` when pandas raises, and that path
  is left out.
- Floating point is not modelled. The mtime in the cache key is an integer
  rendered in decimal, not Python's float `repr`. File timestamps (creation
  and modification times, the cleanup reference date) are integers in whole
  microseconds, so the strict date comparisons in `suppr_crit` are exact.
  Only the disk monitor's timestamps and percentages are reals. The report's
  `last_update` string is not produced.
- Scanner.FileRecord: the size is a `nat` and the mtime an `int`, with no
  64-bit bounds.
- `str.lower`, `str.isdigit` and `int()` are modelled on ASCII only. Unicode
  case mappings, Unicode digits and underscores in `int()` are not modelled.
- `datetime.strptime` of the cleanup date is an input, `None` when it fails.
- DiskMonitor.Tick: the tick reads `datetime.now()` separately for the usage
  entry, the I/O entry and the cutoff. The model uses one clock reading for all three.
- `fromtimestamp` is the identity on local timestamps. Time zones and
  daylight-saving time are not modelled.
- Schedule.NextRun: `datetime` overflow past year 9999 is not modelled.
  `now` is given as day, hour, minute and microseconds within the minute.
- Criteria.PreviewFiles: the walk's file list is an input. Between the
  selection test and the listing, the second size and creation-time reads see
  the same answers as the first.
- Sweep.Step: `getsize` after a duplicate is listed only affects the display,
  so it is not modelled.
- FileStats.GetFileStats: stability of `sorted` among rows of equal size is
  provided by the insertion sort but not stated.
- Analysis.Analyse: the percentage column and the MB formatting are not
  modelled. Only the sizes they are computed from are.

## Findings

| source | as written | input that shows it | evidently intended | confidence | as-written member | corrected member |
|---|---|---|---|---|---|---|
| source/Projet.py:684-687 | The filter entries are lower-cased, but the path's extension is compared as it appears. | The path `img/PHOTO.JPG` with the extension text ".jpg" is never selected. | Extensions match case-insensitively, so the extension is lower-cased before the lookup. | high, not executed | Criteria.AsWrittenMissesUpperCase | Criteria.SupprCrit |
| source/Projet.py:845-859 | The size is added to the running total before `getmtime` is called. If `getmtime` raises, the file is counted in TOTAL's size but in no row. | One 5-byte file whose `getmtime` fails: no rows, but TOTAL shows 5 bytes. | TOTAL's size equals the sum of the rows, like TOTAL's count. | medium, not executed | Analysis.AsWrittenTotalGap | Analysis.Analyse |
