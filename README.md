# Dirwatcher scan engine in Dafny

This project models the incremental scan engine of `dirwatcher.py` and proves properties of it. The engine polls a directory and keeps a table `watch_dict` that maps each watched file name to a *watermark*: how many lines of it have already been examined. The engine has two parts.

- `search_for_magic` walks the lines of one file. It skips every line whose 0-based index is at most the stored watermark. For each line it does examine, it overwrites the watermark with `index + 1` and remembers the 1-based line number if the line contains the magic string. At the end it logs all remembered numbers in one message, if there are any.
- `watch_directory` reconciles the table against one directory listing:
  - if the path is not a directory, it logs a warning and returns;
  - otherwise it pops, with a log line, every tracked name the listing no longer holds;
  - then it walks the listing in order; each name ending with the extension is inserted with watermark 0 (and logged) if it is new, and is then scanned.

Layout:

- `text.dfy` (`Text`) holds `str.find` and `str.endswith`.
- `watch_table.dfy` (`WatchTable`) holds the value of `watch_dict`. This is a map plus the order its keys were inserted in, because a Python dictionary iterates in insertion order, and that order fixes the order of the "File Deleted" messages.
- `events.dfy` (`Events`) holds the log messages as abstract events.
- `magic_scanner.dfy` (`MagicScanner`) holds what one `search_for_magic` call computes, and its properties.
- `file_tracker.dfy` (`FileTracker`) holds what one `watch_directory` call computes, and its properties.
- `dir_watcher.dfy` (`DirWatcher`) holds the program as it runs. The class `Watcher` owns the table and the log. Its methods mirror the two functions loop for loop, and each method is proved to leave exactly the state the functions above describe.
- `scenarios.dfy` (`Scenarios`) works through concrete polls of a small directory.

The filesystem is replaced by a snapshot value `Directory`:

- whether the path is a directory;
- the listing, in the order `os.listdir` returns it;
- the lines of every listed file that `open` can read.

A listed name with no entry in the snapshot's lines is one whose `open` raises. This exception is not caught inside `watch_directory`. It ends the rest of the poll, and everything already done stays done, including the entry with watermark 0 that was just inserted for the failing name. The model returns that as the outcome `ScanFailed(name)`.

The line-skip boundary is modelled exactly as written (`line_num <= start_line`). So with watermark 0 the first line of a file is never examined. After a file grows, its first new line is skipped too, because its index equals the stored watermark. One might expect a third poll, after `"MAGIC again"` is appended to a 3-line file, to report line 4 and store watermark 4. The code does neither: line index 3 is not above the stored watermark 3, so nothing is reported and the watermark stays 3. The model follows the code (`Scenarios.ThirdPollSkipsAppendedLine`, `MagicScanner.AppendedLineSkipped`).

## Model

| member | source | states |
|---|---|---|
| Text.EndsWith | dirwatcher.py:59-62 | `filename.endswith(extension)`; characterised by `Text.EndsWithIsSuffix` |
| Text.FindFrom | dirwatcher.py:34 | the result is -1 or an index at or after `from` where the needle occurs, and the needle occurs at no index from `from` up to the result (or at all, when the result is -1) |
| Text.Find | dirwatcher.py:34 | `line.find(magic)` is -1 exactly when the magic string is not a substring of the line; otherwise it is the least index where the string occurs |
| Text.EndsWithIsSuffix | dirwatcher.py:59 | `filename.endswith(extension)` holds exactly when the name is some string followed by the extension; no dot is implied and case matters |
| WatchTable.Without | dirwatcher.py:56 | taking a key out of the key order removes exactly that key, keeps the order duplicate-free, and changes nothing if the key was absent |
| WatchTable.WithoutKeepsOrder | dirwatcher.py:56 | taking out a key that occurs once keeps every other key in its insertion order: `a + [k] + b` becomes `a + b` |
| WatchTable.Table.Put | dirwatcher.py:35 | `watch_dict[k] = v` keeps the table well formed, sets `k` to `v`, keeps every other entry, and appends `k` to the iteration order only when it is new |
| WatchTable.Table.PutTwice | dirwatcher.py:35 | overwriting an entry twice has the effect of the second write alone |
| WatchTable.Table.Pop | dirwatcher.py:56 | `watch_dict.pop(k)` keeps the table well formed, removes exactly `k`, keeps every other watermark, and leaves the iteration order `Without(order, k)`, which keeps the other keys in order (`WatchTable.WithoutKeepsOrder`) |
| MagicScanner.HitsBelow | dirwatcher.py:30-37 | `found_lines` after the first `n` lines; characterised by `MagicScanner.HitsBelowExactly`, `HitsBelowIncreasing`, `HitsBelowIgnoreSkipped` and `HitsBelowNone` |
| MagicScanner.Hits | dirwatcher.py:30-37 | `found_lines` at the end of the loop; characterised by `MagicScanner.HitsExactly`, `HitsIncreasing`, `SkippedLinesNeverExamined` and `GrownFileHits` |
| MagicScanner.ScanMark | dirwatcher.py:32-35 | the watermark a scan from `start` leaves: `len(lines)` when some line is examined, `start` otherwise; tied to the table by `MagicScanner.ScanTable` |
| MagicScanner.ScanTable | dirwatcher.py:32-35 | after a scan from `start` the entry for the file is `len(lines)` when `len(lines) > start + 1` and is unchanged otherwise; no other entry changes; for a tracked file scanned from its own watermark the entry becomes `ScanMark(start, lines)`, never below `start`; the key order is unchanged for a tracked file |
| MagicScanner.MagicEvents | dirwatcher.py:38-40 | a scan logs at most one magic message; it logs one exactly when the hit list is non-empty, and the message carries the whole list |
| MagicScanner.HitsBelowExactly | dirwatcher.py:31-37 | among the first `n` lines, number `k` is reported exactly when `start + 2 <= k <= n` and line `k` contains the magic string |
| MagicScanner.HitsExactly | dirwatcher.py:31-37 | every reported number `k` satisfies `start + 2 <= k <= len(lines)` and line `k` contains the magic string; conversely every examined line containing it is reported |
| MagicScanner.HitsBelowIncreasing | dirwatcher.py:30-37 | the hit list over the first `n` lines is strictly increasing and bounded by `n` |
| MagicScanner.HitsIncreasing | dirwatcher.py:30-37 | the hit list of a scan is strictly increasing |
| MagicScanner.HitsBelowIgnoreSkipped | dirwatcher.py:31-33 | two files that agree on every line with index above `start` give the same hits over their first `n` lines |
| MagicScanner.SkippedLinesNeverExamined | dirwatcher.py:31-33 | lines with 0-based index at most `start` are never examined: replacing them leaves the hit list unchanged |
| MagicScanner.FirstLineNeverChecked | dirwatcher.py:31-33 | from watermark 0 the content of the first line makes no difference, and line 1 is never reported |
| MagicScanner.HitsBelowNone | dirwatcher.py:31-33 | no line is reported among the first `start + 1` lines |
| MagicScanner.RescanIsIdempotent | dirwatcher.py:32-35 | rescanning an unchanged file from the watermark the first scan stored reports nothing and leaves the table as it was |
| MagicScanner.GrownFileHits | dirwatcher.py:31-37 | after a file grows, a scan from the stored watermark `len(lines)` reports exactly the new lines containing the magic string from the second new line on |
| MagicScanner.AppendedLineSkipped | dirwatcher.py:32-35 | a single line appended after a scan is never reported, and the watermark does not move |
| FileTracker.RemovePass | dirwatcher.py:53-56 | the first loop of `watch_directory` over the first keys of the snapshot; characterised by `FileTracker.RemovePassSpec` and `RemovalPass`, and proved equal to `DirWatcher.Watcher.RemoveVanished` |
| FileTracker.RemoveStep | dirwatcher.py:53-56 | helper (induction step): visiting one more tracked key extends the removal facts to it |
| FileTracker.RemovePassSpec | dirwatcher.py:53-56 | after the removal pass over a duplicate-free prefix of tracked keys, a key remains exactly when it was tracked and is listed or was not visited; kept keys keep their watermark; only deletion events are logged, one per dropped key |
| FileTracker.RemovalPass | dirwatcher.py:52-56 | after the removal pass every remaining key is listed, every listed tracked key remains with its old watermark, and each dropped key is logged as deleted exactly once |
| FileTracker.RemovePassStep | dirwatcher.py:53-56 | helper (one unfolding): the pass over one more key pops and logs that key exactly when it is not listed |
| FileTracker.RemovePassKeepsRest | dirwatcher.py:53-56 | walking a snapshot of the keys, a key the pass has not reached yet is still in the table, so the `pop` is never of a missing key |
| FileTracker.RemoveNothing | dirwatcher.py:53-56 | when every visited key is listed, the removal pass changes and logs nothing |
| FileTracker.StartMark | dirwatcher.py:59-64 | the watermark a listed file is scanned from: its old one if tracked, 0 if new (`watch_dict[filename]` after line 61); used by `FileTracker.PollReconciles` |
| FileTracker.Visit | dirwatcher.py:59-64 | one turn of the second loop; characterised by `FileTracker.VisitStep` and `VisitCounts`, and proved equal to `DirWatcher.Watcher.VisitName` |
| FileTracker.AddScanPass | dirwatcher.py:58-64 | the second loop, stopped by a failed `open`; characterised by `FileTracker.AddScanPassKeeps`, `AddScanPassSpec`, `AddScanPassCounts` and `FailureStops`, and proved equal to `DirWatcher.Watcher.AddAndScan` |
| FileTracker.Poll | dirwatcher.py:43-66 | one call of `watch_directory`; characterised by the `FileTracker.Poll*` lemmas, and proved equal to `DirWatcher.Watcher.WatchDirectory` |
| FileTracker.VisitShift | dirwatcher.py:58-64 | helper (frame fact): one turn of the add-and-scan loop does not depend on the messages logged before it |
| FileTracker.AddScanPassKeeps | dirwatcher.py:58-64 | however the add-and-scan loop ends, the table stays well formed, no watermark goes down, every new key is a listed name with the extension, only added and magic messages are logged, and a failed `open` names a listed name with the extension that is now tracked |
| FileTracker.ScannedStep | dirwatcher.py:59-64 | helper (induction step): a turn that scanned one more listed name extends the per-name reconciliation facts to that name |
| FileTracker.VisitStep | dirwatcher.py:59-64 | helper (induction step): a turn of the add-and-scan loop that completes keeps the per-name reconciliation facts, now over one more name |
| FileTracker.AddScanPassSpec | dirwatcher.py:58-64 | a completed add-and-scan loop over a duplicate-free listing: the keys are the old ones plus the listed names with the extension; each such name ends at the watermark its scan from its old watermark (0 if new) leaves; untouched keys keep theirs; a name is logged as added exactly when it was new; each magic message is exactly the non-empty hit list of one such name |
| FileTracker.CountedStep | dirwatcher.py:59-64 | helper (induction step): the messages of a turn that scanned one more name extend the per-name counts to it |
| FileTracker.VisitCounts | dirwatcher.py:59-64 | helper (induction step): a completed turn adds at most one added message and at most one hit list, both for its own name |
| FileTracker.AddScanPassCounts | dirwatcher.py:58-64 | a completed add-and-scan loop over a duplicate-free listing logs each new listed name with the extension as added exactly once and no other name; it logs each such name's non-empty hit list exactly once and no other hit list |
| FileTracker.FailureStops | dirwatcher.py:29 | once an `open` has failed, the rest of the listing changes nothing |
| FileTracker.AddScanPassQuiet | dirwatcher.py:58-64 | when every listed name with the extension is tracked and has no line above its watermark, the loop changes and logs nothing |
| FileTracker.NotADirectory | dirwatcher.py:48-50 | a path that is not a directory gives one warning and leaves the table untouched |
| FileTracker.PollKeepsInvariant | dirwatcher.py:43-64 | however a poll ends, the table stays well formed, no name lacking the extension is ever inserted, and no watermark of a key that stays goes down |
| FileTracker.PollDropsVanished | dirwatcher.py:52-56 | however a poll of a directory ends, no unlisted name stays tracked, and each tracked name that vanished is logged as deleted exactly once |
| FileTracker.PollLogsOnce | dirwatcher.py:52-64 | after a completed poll each new listed name with the extension is logged as added exactly once, and each non-empty hit list exactly once; no other added or magic message appears |
| FileTracker.DeletionsFirst | dirwatcher.py:52-64 | helper: deletions followed by other messages leave no deletion after another message |
| FileTracker.PollDeletesFirst | dirwatcher.py:52-64 | however a poll ends, no deletion message comes after an added or magic message: the removal loop finishes before the second loop starts |
| FileTracker.PollReconciles | dirwatcher.py:52-64 | after a completed poll the keys are exactly the listed names with the extension; each starts its scan from its old watermark if it was tracked and from 0 otherwise; it is logged as added exactly once when new and never otherwise; its hit list, when non-empty, is logged exactly once, and no other hit list is logged |
| FileTracker.PollAbortsOnOpenFailure | dirwatcher.py:29 | a poll cut short by a failed `open` was of a directory, the failing name is listed, has the extension and no readable lines, and stays tracked |
| FileTracker.UnchangedDirectoryIsQuiet | dirwatcher.py:43-64 | a second poll of an unchanged directory logs nothing and leaves the table as the first left it |
| FileTracker.RecreatedFileRestarts | dirwatcher.py:53-64 | a name dropped in one poll and listed again later is logged as added, scanned from watermark 0, and its hits from 0 are reported |
| DirWatcher.Watcher.constructor | dirwatcher.py:16 | the table starts empty and nothing is logged |
| DirWatcher.Watcher.Set | dirwatcher.py:35 | the in-place assignment to `watch_dict` leaves the table `Put` describes and logs nothing |
| DirWatcher.Watcher.Pop | dirwatcher.py:56 | the in-place `pop` leaves the table `Table.Pop` describes and logs nothing |
| DirWatcher.Watcher.SearchForMagic | dirwatcher.py:24-40 | the loop over the lines leaves exactly the table `ScanTable` gives and appends exactly the messages `MagicEvents` gives for the hit list `Hits` |
| DirWatcher.Watcher.RemoveVanished | dirwatcher.py:52-56 | the loop over a snapshot of the keys leaves the table and appends the deletion messages the removal pass describes |
| DirWatcher.Watcher.VisitName | dirwatcher.py:59-64 | one turn of the second loop of `watch_directory` leaves the state and outcome one `Visit` describes |
| DirWatcher.Watcher.AddAndScan | dirwatcher.py:58-64 | the loop over the listing, stopped by a failed `open`, leaves the state and outcome the add-and-scan pass describes |
| DirWatcher.Watcher.WatchDirectory | dirwatcher.py:43-66 | one call leaves the table, log and outcome that `Poll` describes, and keeps the table well formed |
| Scenarios.FirstPoll | dirwatcher.py:43-64 | first poll of `a.txt` = `hello / MAGIC here / world`: the file is logged as added, line 2 is reported, and the watermark becomes 3 |
| Scenarios.SecondPoll | dirwatcher.py:43-64 | polling again with nothing changed logs nothing and keeps watermark 3 |
| Scenarios.ThirdPollSkipsAppendedLine | dirwatcher.py:31-35 | after `MAGIC again` is appended as line 4, the poll logs nothing and the watermark stays 3 |
| Scenarios.DeletedFile | dirwatcher.py:53-56 | once `a.txt` leaves the listing, the poll logs its deletion and leaves the table empty |
| Scenarios.MissingDirectory | dirwatcher.py:48-50 | a path that is not a directory gives the one warning |

## Left out

- Argument parsing (`create_parser`, dirwatcher.py:69-83): a library wrapper with no logic of its own. The directory, magic string and extension are parameters.
- Logging configuration and message formatting (dirwatcher.py:18-21): each log call is an abstract event appended to `Watcher.log`.
- The signal handler, `exit_flag` and the `main` loop with its sleep and catch-all `except` (dirwatcher.py:86-133): asynchronous signals and timing. One poll is one `WatchDirectory` call, and its `ScanFailed` outcome stands for the exception that `main` catches and logs.
- Filesystem calls (`os.path.isdir`, `os.listdir`, `open`, and the `path + "/" + filename` join) are replaced by the `Directory` snapshot. Its listing is taken to be duplicate-free where a property needs it (`WellFormed`).
- Text decoding and the splitting of a file into lines: a file is the sequence of lines its iterator yields, taken as given, with whatever line terminators they carry.
- A read error in the middle of a file: only a failing `open` is modelled, as a name with no lines in the snapshot. `os.listdir` failing after the `isdir` check is not modelled.
- The `interval` parameter of `watch_directory`: it is unused there.
- A file that shrank below its watermark: as in the code, nothing is examined and the watermark stays above the file's length. The model states this (`ScanTable`) and adds no other policy.
