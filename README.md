# Librarian ingest pipeline, in Dafny

This project models the ingest core of the photo-factory Librarian service.
A file that has settled in `Photos_Inbox` is dated and hashed. It is then
either moved into `Storage/Originals/YYYY/YYYY-MM-DD/` under a name that does
not collide, or deleted because the day folder already holds its content.
Each archived file gets one `media_assets` row, keyed by its SHA-256 digest.

The model has one module per source file, and all of them work on one
abstract disk:

- `FileSystem` (filesystem.dfy) is the disk. It has regular files keyed by
  (directory, name), each with bytes, an mtime and two flags saying whether
  `open()` and `stat()` fail, plus a set of directories. `exists()` and
  `is_file()` re-raise a file's `stat()` fault, as `pathlib` does. It defines the
  `pathlib`/`os`/`shutil` calls the pipeline makes, and the `Disk` class that
  the orchestrator mutates.
- `CollisionHandler` (collision_handler.dfy) covers the chunked hashing loop,
  collision-free naming, the collision decision and the day-folder
  duplicate scan.
- `MetadataExtractor` (metadata_extractor.dfy) covers the date-to-folder
  mapping and the `strptime("%Y:%m:%d %H:%M:%S")` parser, following CPython's
  regular-expression rules. It also covers the DateTimeOriginal → DateTime →
  mtime fallback chain.
- `FileWatcher` (file_watcher.dfy) is the stability tracker.
  `StableFileHandler` is a class holding an insertion-ordered
  `pending_files` dict and the `processing_files` set. It has the event
  handlers and one iteration of the check loop (`Tick`). The callbacks are
  recorded as the sequence of paths they are invoked on.
- `Librarian` (librarian.dfy) is `process_file` and `_write_to_database`.
  They are specified as one pure function `Ingest` of the disk and the
  ledger. The `LibrarianService.ProcessFile` method is proved to do exactly
  what `Ingest` says. The end-to-end properties are lemmas about `Ingest`:
  - the outcome cases;
  - nothing is ever overwritten;
  - at most one copy of any content per folder;
  - insert-if-absent;
  - one row per digest.
- `Digits` (digits.dfy) covers decimal text: `str(n)`, zero padding, and
  digit values. `Wrappers` has `Option` and `Result`.

Several collaborators have no modelled code. They are fields of an `Env`
record:

- the SHA-256 function;
- PIL's EXIF reader and whether PIL is installed;
- the GPS reader;
- `datetime.fromtimestamp`;
- the deny list `should_process_file`;
- the order in which `iterdir()` lists a directory.

Whether the database is reachable is a parameter (`dbUp`).

## Model

| member | source | states |
|---|---|---|
| FileSystem.Stat | Src/Librarian/file_watcher.py:125 | `stat().st_mtime` succeeds exactly for a regular file whose `stat()` works, and then yields its mtime; a directory's `stat()` is modelled as failing (see Left out) |
| FileSystem.StatSize | Src/Librarian/librarian.py:194 | `stat().st_size` succeeds exactly when `stat()` does, and is the length of the file's bytes |
| FileSystem.Open | Src/Librarian/collision_handler.py:28 | `open(p, 'rb')` succeeds exactly for a readable regular file, and reads its bytes |
| FileSystem.MakeDirs | Src/Librarian/utils.py:61-68 | `mkdir(parents=True, exist_ok=True)` fails exactly when the directory or one of its ancestors is a regular file; otherwise it adds the directory and all its ancestors and leaves the files alone |
| FileSystem.UnlinkFile | Src/Librarian/librarian.py:140 | `unlink()` succeeds exactly on a regular file and removes only that file |
| FileSystem.MoveFile | Src/Librarian/librarian.py:179 | `shutil.move` succeeds only from an existing file; onto a free path it removes the source and places its node at the destination, with the directories unchanged |
| FileSystem.Disk.constructor | Src/Librarian/librarian.py:87 | the disk starts in the given state |
| FileSystem.Disk.EnsureDirectoryExists | Src/Librarian/utils.py:61-68 | reports whether `mkdir` succeeded; the disk becomes `MakeDirs`'s result, or is unchanged on failure |
| FileSystem.Disk.Unlink | Src/Librarian/librarian.py:139-143 | reports whether the file was there; the disk loses exactly that file, or is unchanged |
| FileSystem.Disk.Move | Src/Librarian/librarian.py:179 | reports whether the move succeeded; the disk becomes `MoveFile`'s result, or is unchanged |
| CollisionHandler.Sha256.constructor | Src/Librarian/collision_handler.py:25 | a new hasher has been fed nothing |
| CollisionHandler.Sha256.Update | Src/Librarian/collision_handler.py:30 | `update(chunk)` appends the chunk to everything fed so far |
| CollisionHandler.Sha256.HexDigest | Src/Librarian/collision_handler.py:31 | the digest is the hash of everything fed, in order |
| CollisionHandler.BinaryReader.constructor | Src/Librarian/collision_handler.py:28 | a newly opened file is read from its first byte |
| CollisionHandler.BinaryReader.Read | Src/Librarian/collision_handler.py:29 | `read(n)` returns the next `min(n, remaining)` bytes and advances past them; a negative `n` reads to the end |
| CollisionHandler.HashOf | Src/Librarian/collision_handler.py:14-34 | a file's digest exists exactly when it can be opened, and is the hash of its whole content |
| CollisionHandler.CalculateFileHash | Src/Librarian/collision_handler.py:14-34 | for any non-zero chunk size the loop feeds every byte once, in order, so the result is the hash of the whole content (`None` when `open` fails); a chunk size of 0 hashes the empty string |
| CollisionHandler.LastDot | Src/Librarian/collision_handler.py:81-82 | `rfind('.')`: an index holding a dot with no dot after it, or -1 when there is none |
| CollisionHandler.StemSuffixSplit | Src/Librarian/collision_handler.py:81-82 | stem + suffix is the name; a suffix is a dot followed by dot-free text after a non-empty stem; `.hidden` has an empty suffix |
| CollisionHandler.SplitNamedParts | Src/Librarian/collision_handler.py:81-82 | `stem.ext` splits back into exactly that stem and `.ext` |
| CollisionHandler.FirstFreeCounter | Src/Librarian/collision_handler.py:85-97 | the counter found is in range and not reported taken (free, or its `exists()` raises), and `exists()` returns `True` for every smaller counter; `None` means it returns `True` for every counter up to 10000 |
| CollisionHandler.UniqueFilename | Src/Librarian/collision_handler.py:62-97 | a free base name is returned unchanged; otherwise `{stem}_{k}{suffix}` in the same directory for the smallest `k` in 1..10000 whose `exists()` does not return `True`, and the result never exists; an `exists()` that raises, on the name or on that first candidate, propagates its error; `RuntimeError` exactly when `exists()` returns `True` for the name and all 10000 variants |
| CollisionHandler.GenerateUniqueFilename | Src/Librarian/collision_handler.py:62-97 | the `while True` loop, including its early exits on an `exists()` that raises, computes `UniqueFilename` |
| CollisionHandler.HandleCollision | Src/Librarian/collision_handler.py:100-141 | no collision gives the destination itself; a destination whose `exists()` raises gives that error; a duplicate is reported exactly when `exists()` returns `True` and the destination has the source's digest; otherwise a fresh sibling from `generate_unique_filename` is returned, or its error |
| CollisionHandler.NameCollisionRenamesToFirstVariant | Src/Librarian/collision_handler.py:133-141 | `source.txt` taken by other content, with `source_1.txt` free, is renamed to `source_1.txt` |
| CollisionHandler.SequentialNumbering | Src/Librarian/collision_handler.py:80-93 | after `test.jpg` and `test_1.jpg` comes `test_2.jpg` |
| CollisionHandler.FirstStopIndex | Src/Librarian/collision_handler.py:163-173 | the index found is where the loop stops (an entry whose `is_file()` raises, or a regular file, not the excluded path, with the digest), and the loop stops at no earlier entry |
| CollisionHandler.DuplicateInFolder | Src/Librarian/collision_handler.py:144-175 | a missing folder gives `None`; a folder path whose `exists()` raises gives that error; `iterdir()` raises exactly on a regular file whose `stat()` works; a result is a listed regular file of the folder whose `stat()` works, with the digest, never the excluded path |
| CollisionHandler.DuplicateInFolderComplete | Src/Librarian/collision_handler.py:160-175 | on an existing folder: the scan raises exactly when an entry whose `is_file()` raises comes before every duplicate; with a complete listing, `None` exactly when every regular file of the folder can be `stat`ed and none other than the excluded one matches; otherwise the result is the first entry in listing order at which the loop stops |
| CollisionHandler.CheckDuplicateInDateFolder | Src/Librarian/collision_handler.py:144-175 | the `for` scan with early return computes `DuplicateInFolder` |
| CollisionHandler.FindExistingFileByHash | Src/Librarian/collision_handler.py:37-59 | the same scan with nothing excluded; a result has the target digest |
| Digits.DecimalString | Src/Librarian/collision_handler.py:87 | `str(counter)` is all digits, has no leading zero and reads back as the counter |
| Digits.ZeroPadValue | Src/Librarian/metadata_extractor.py:111-112 | zero-padded `%Y`/`%m`/`%d` fields are all digits and read back as the number |
| Digits.DecimalStringLength | Src/Librarian/metadata_extractor.py:111 | `str(n)` of a number with `k + 1` digits has exactly `k + 1` characters |
| MetadataExtractor.DaysInMonth | Src/Librarian/metadata_extractor.py:94-96 | months have 28 to 31 days, and 29 exactly for February of a Gregorian leap year |
| MetadataExtractor.GetDatePathComponents | Src/Librarian/metadata_extractor.py:101-113 | with `%Y` zero-padded to four digits: a four-character year, and a ten-character day folder that begins with the year and has `-` at positions 4 and 7 (see Left out for years below 1000) |
| MetadataExtractor.DatePathComponentsDecode | Src/Librarian/metadata_extractor.py:111-113 | the year, month and day parts are digits that read back as the date's year, month and day; month and day are zero-padded to two digits |
| MetadataExtractor.FourDigitYearUnpadded | Src/Librarian/metadata_extractor.py:111 | for years 1000..9999 the padded year is exactly `str(year)`, so padding or not makes no difference there |
| MetadataExtractor.DayFolderIdentifiesDay | Src/Librarian/metadata_extractor.py:111-113 | two dates share a day folder exactly when they fall on the same calendar day, and then they share the year folder too |
| MetadataExtractor.DatePathExamples | Src/Librarian/metadata_extractor.py:111-113 | any time of day on 2025-12-25, 2020-01-01, 1999-12-31 or 2024-02-29 gives the expected `(YYYY, YYYY-MM-DD)` folder pair |
| MetadataExtractor.DigitRun | Src/Librarian/metadata_extractor.py:95 | the longest run of digits starting at an index |
| MetadataExtractor.SpaceRun | Src/Librarian/metadata_extractor.py:95 | the longest run of whitespace starting at an index, which is what `\s+` matches in ASCII text: space, U+0009 to U+000D and U+001C to U+001F |
| MetadataExtractor.NumberAt | Src/Librarian/metadata_extractor.py:95 | a `%m`/`%d`/`%H`/`%M`/`%S` field: one or two digits with a value in range, ending before a non-digit |
| MetadataExtractor.DayAt | Src/Librarian/metadata_extractor.py:95 | `%d` also accepts a space followed by a digit 1-9; the value is always 1..31 |
| MetadataExtractor.DateFields | Src/Librarian/metadata_extractor.py:95 | month 1..12, then `:`, then day 1..31, then at least one `\s` character (U+001C to U+001F included) |
| MetadataExtractor.TimeFields | Src/Librarian/metadata_extractor.py:95 | hour ≤ 23, minute ≤ 59, second ≤ 61, with nothing left after the seconds |
| MetadataExtractor.Validated | Src/Librarian/metadata_extractor.py:95 | the `datetime` constructor accepts exactly the valid calendar times (year 1..9999, the real days of the month, seconds below 60) |
| MetadataExtractor.ParseExifString | Src/Librarian/metadata_extractor.py:94-98 | a parsed text begins with the zero-padded year and a `:` |
| MetadataExtractor.FormatExifWith | Src/Librarian/metadata_extractor.py:95 | the Exif form `YYYY:MM:DD`, one separator character, `HH:MM:SS` is 19 characters |
| MetadataExtractor.FormatExif | Src/Librarian/metadata_extractor.py:95 | the Exif form `YYYY:MM:DD HH:MM:SS` is 19 characters |
| MetadataExtractor.ParseFormatted | Src/Librarian/metadata_extractor.py:94-98 | parsing a formatted calendar time, with any one `\s` character between date and time, gives it back when it is valid, and `None` otherwise |
| MetadataExtractor.ParseAcceptsInformationSeparators | Src/Librarian/metadata_extractor.py:95 | a date and time separated by one of U+001C to U+001F parse back to the `datetime`, as `\s+` matches those characters |
| MetadataExtractor.ParseFormatRoundTrip | Src/Librarian/metadata_extractor.py:94-96 | every `datetime`, formatted as `YYYY:MM:DD HH:MM:SS`, parses back to itself |
| MetadataExtractor.ParseRejectsDashes | Src/Librarian/metadata_extractor.py:97-98 | `2025-06-15 14:30:00` is not in the form and gives `None` |
| MetadataExtractor.ParseExifDateTime | Src/Librarian/metadata_extractor.py:82-98 | a non-string value gives `None`; a result exists exactly for a string the parser accepts |
| MetadataExtractor.ExtractExifDate | Src/Librarian/metadata_extractor.py:45-79 | no PIL, or a missing or empty EXIF block, gives `None`; a result comes from DateTimeOriginal when present, otherwise from DateTime |
| MetadataExtractor.DateTimeOriginalDecides | Src/Librarian/metadata_extractor.py:64-67 | when DateTimeOriginal is present, it alone decides the result, even when it does not parse |
| MetadataExtractor.DateTimeFallback | Src/Librarian/metadata_extractor.py:69-73 | without DateTimeOriginal, the result is DateTime's parse, or `None` when that tag is absent |
| MetadataExtractor.ExtractDateTaken | Src/Librarian/metadata_extractor.py:16-42 | the EXIF date when there is one, otherwise the converted mtime; `None` exactly when there is no EXIF date and `stat` or the conversion fails |
| MetadataExtractor.ParseExifDateTimeAsWritten | Src/Librarian/metadata_extractor.py:94-98 | as written, `TypeError` escapes exactly for a non-string value; otherwise it agrees with `ParseExifDateTime` |
| MetadataExtractor.ExtractExifDateAsWritten | Src/Librarian/metadata_extractor.py:45-79 | as written, whenever it returns it agrees with `ExtractExifDate` |
| MetadataExtractor.ExtractDateTakenAsWritten | Src/Librarian/metadata_extractor.py:16-42 | as written, whenever it returns it agrees with `ExtractDateTaken` |
| MetadataExtractor.NonTextDateTimeOriginalEscapes | Src/Librarian/metadata_extractor.py:94-98 | a non-string DateTimeOriginal makes `extract_date_taken` raise as written, where the intended result is the mtime's date |
| MetadataExtractor.AsWrittenAgreesOnText | Src/Librarian/metadata_extractor.py:16-98 | when the consulted date tag holds a string, the code as written and the corrected model agree |
| FileWatcher.PutWellFormed | Src/Librarian/file_watcher.py:105 | `pending_files[path] = mtime` keeps the dict's key order duplicate-free and in step with its keys |
| FileWatcher.PromoteExactly | Src/Librarian/file_watcher.py:120-139 | a file is promoted exactly when its mtime is unchanged and both thresholds have passed since that mtime; a changed mtime is re-timed, not promoted; an entry is dropped exactly when `stat` fails |
| FileWatcher.KeptOrderMembers | Src/Librarian/file_watcher.py:128-139 | the items kept are exactly the re-timed and waiting ones, without repeats |
| FileWatcher.PromotedOrderMembers | Src/Librarian/file_watcher.py:134-142 | the promoted items are exactly the stable ones, without repeats |
| FileWatcher.CheckPassEffect | Src/Librarian/file_watcher.py:114-146 | one pass promotes each stable file once; afterwards an item is pending exactly when it was pending, can be `stat`ed and was not promoted, under its current mtime |
| FileWatcher.CheckLoopDone | Src/Librarian/file_watcher.py:117-146 | the item-by-item loop over the snapshot yields the pass's closed form, and leaves no promoted path pending |
| FileWatcher.RegisteredMtime | Src/Librarian/file_watcher.py:91-108 | an mtime is recorded exactly for an existing regular file not being processed whose `stat` succeeds |
| FileWatcher.RegisterIdempotent | Src/Librarian/file_watcher.py:91-105 | re-registering an unchanged file changes nothing, not even the dict order; no other path is touched |
| FileWatcher.StableFileHandler.constructor | Src/Librarian/file_watcher.py:25-50 | starts with empty `pending_files` and `processing_files` |
| FileWatcher.StableFileHandler.RegisterFile | Src/Librarian/file_watcher.py:91-108 | the pending dict becomes `Register`'s result; processing is untouched; pending and processing stay disjoint |
| FileWatcher.StableFileHandler.OnCreated | Src/Librarian/file_watcher.py:66-72 | directory events are ignored; file events register `src_path` |
| FileWatcher.StableFileHandler.OnModified | Src/Librarian/file_watcher.py:74-80 | directory events are ignored; file events register `src_path` |
| FileWatcher.StableFileHandler.OnMoved | Src/Librarian/file_watcher.py:82-89 | directory events are ignored; file events register `dest_path` |
| FileWatcher.StableFileHandler.CheckItem | Src/Librarian/file_watcher.py:119-146 | one item is dropped, re-timed (appended when missing, as dict assignment does) or promoted into processing, according to its verdict |
| FileWatcher.StableFileHandler.CheckPending | Src/Librarian/file_watcher.py:114-146 | the check loop over a snapshot returns the promoted files in dict order, leaves `AfterCheck` pending, and adds exactly the promoted files to processing |
| FileWatcher.StableFileHandler.RunCallbacks | Src/Librarian/file_watcher.py:148-156 | the callback is invoked once per stable file, in order, and each file is discarded from processing whatever the callback does |
| FileWatcher.StableFileHandler.Tick | Src/Librarian/file_watcher.py:110-159 | one loop iteration invokes the callback on exactly the promoted files, in order, leaves `AfterCheck` pending, restores processing and keeps pending and processing disjoint |
| FileWatcher.RegisterAllEffect | Src/Librarian/file_watcher.py:225-230 | after registering a listing, every qualifying file of it is pending under its current mtime, and other paths are untouched |
| FileWatcher.Watcher.constructor | Src/Librarian/file_watcher.py:167-187 | a watcher starts with no handler |
| FileWatcher.Watcher.Start | Src/Librarian/file_watcher.py:189-200 | the inbox is created; when that succeeds, a fresh empty handler is installed; when it fails, nothing else happens |
| FileWatcher.ScanEnd | Src/Librarian/file_watcher.py:226-227 | how far the existing-file scan gets: no entry before it has an `is_file()` that raises, and the entry at it, if any, has one |
| FileWatcher.Watcher.ProcessExistingFiles | Src/Librarian/file_watcher.py:220-230 | a no-op when the inbox is missing or there is no handler; an inbox path whose `exists()` raises ends the call; otherwise the entries are registered in order up to the first whose `is_file()` raises, which ends the call with `raised` set and leaves the rest unvisited |
| FileWatcher.ExistingFilesRegistered | Src/Librarian/file_watcher.py:220-230 | with a complete listing and no entry whose `is_file()` raises, every regular file below the inbox that is not being processed and can be `stat`ed ends up pending under its mtime; paths that come only after an entry whose `is_file()` raises are left as they were |
| Librarian.InsertIfAbsent | Src/Librarian/librarian.py:244-272 | raises exactly when the database is down; otherwise it adds the row's digest, keeps every existing row, and stores the new row only when its digest was absent |
| Librarian.DestinationLayout | Src/Librarian/librarian.py:116-117 | the day folder is `storage/YYYY/YYYY-MM-DD`, with parts that read back as the date |
| Librarian.DestinationExample | Src/Librarian/librarian.py:116-117 | a file dated 2025-06-15 goes to `storage/2025/2025-06-15` |
| Librarian.ArchiveFacts | Src/Librarian/librarian.py:167-207 | a source whose `stat()` faults makes `exists()` raise: nothing is moved or recorded and the error is re-raised; any other source is moved onto the free destination, and the row is recorded exactly when the database is up |
| Librarian.ResolveOutcomes | Src/Librarian/librarian.py:130-207 | after the collision decision and the scan, the outcome is a naming failure, a duplicate drop, a scan failure (only on a day-folder file whose `stat()` faults), a move-block failure (only on a source whose `stat()` faults) or an archive; the failures change no file and no row (see Left out for the failures not modelled) |
| Librarian.ResolveDuplicate | Src/Librarian/librarian.py:136-164 | a duplicate found by name or by scan is a regular file of the day folder with the source's digest, and the source is deleted |
| Librarian.ResolveArchived | Src/Librarian/librarian.py:130-207 | an archived file goes to a previously free path of the day folder; with complete listings, no other file of that folder had its digest; the source could be `stat`ed, and the row is recorded exactly when the database is up |
| Librarian.IngestOutcomes | Src/Librarian/librarian.py:87-215 | filtered exactly when the deny list rejects the file, and undated exactly when there is no date; both leave the disk and ledger unchanged; no outcome leaves the day folder missing unless `mkdir` failed; hash, naming, scan and move-block failures keep the files and the ledger; the scan fails only on a day-folder file whose `stat()` faults and the move block only on a source whose `stat()` faults; `SourceMissing` cannot occur (see Left out) |
| Librarian.IngestDuplicate | Src/Librarian/librarian.py:136-164 | a duplicate drop removes exactly the source, keeps the ledger, and the existing copy in the day folder has the source's digest |
| Librarian.IngestArchived | Src/Librarian/librarian.py:116-207 | an archived file moves, byte for byte, to a previously free path of its day folder, under its own name when that was free; the files become the old ones minus the source plus the destination; the source could be `stat`ed, and the row is recorded exactly when the database is up |
| Librarian.NeverOverwrites | Src/Librarian/librarian.py:130-181 | no file other than the source is changed or removed, the only new file is the archived destination, and the source is only ever removed, never altered |
| Librarian.SameNodeSameDigest | Src/Librarian/collision_handler.py:14-34 | equal file content gives equal digests |
| Librarian.KeepsContentUnique | Src/Librarian/librarian.py:130-181 | with complete listings, a folder with at most one file per digest keeps that property |
| Librarian.LedgerRowsKept | Src/Librarian/librarian.py:186-203 | existing rows are never changed, and the ledger grows only when a move succeeded |
| Librarian.LedgerNewRow | Src/Librarian/librarian.py:186-203 | the only row a call can add is keyed by the source's digest and describes the archived file: its name, both paths, size, date and location |
| Librarian.LedgerStaysKeyed | Src/Shared/models.py:28 | a ledger whose rows sit under their own digests stays so, so it never holds two rows for one digest |
| Librarian.PhotoGoesToItsDayFolder | Src/Librarian/librarian.py:116-181 | a readable `photo.jpg` whose `stat()` works, dated 2025-06-15, with an empty day folder, is archived at `2025/2025-06-15/photo.jpg` with its bytes and leaves the inbox |
| Librarian.Heartbeat.constructor | Src/Librarian/heartbeat.py:34-35 | no current task, status "OK" |
| Librarian.Heartbeat.SetCurrentTask | Src/Librarian/heartbeat.py:41-43 | sets the task only |
| Librarian.Heartbeat.SetStatus | Src/Librarian/heartbeat.py:45-47 | sets the status only |
| Librarian.LibrarianService.constructor | Src/Librarian/librarian.py:39-85 | a fresh heartbeat at "OK", over the existing `media_assets` table given, which stays keyed by digest |
| Librarian.LibrarianService.WriteToDatabase | Src/Librarian/librarian.py:217-272 | succeeds exactly when the database is up, and the ledger becomes `InsertIfAbsent`'s result |
| Librarian.LibrarianService.ProcessFile | Src/Librarian/librarian.py:87-215 | the disk, ledger and outcome are `Ingest`'s; the ledger stays keyed by digest; a filtered file leaves the heartbeat as it was; every other call ends with no current task and status "OK", after an error too |
| Librarian.LibrarianService.ProcessSteps | Src/Librarian/librarian.py:104-207 | the `try` block does what `Ingest` says for a file that passed the filter |
| Librarian.LibrarianService.ArchiveFile | Src/Librarian/librarian.py:166-207 | the move block does what `Archive` says |

## Left out

- Threads, the watchdog `Observer`, the `while`/`wait(1.0)` loop, `start`/`stop`/`run`/`main` and signal handling. One iteration of the check loop is modelled as `Tick`, sequentially.
- The snapshot `list(self.pending_files.items())` taken under the lock is modelled. Concurrent changes by event threads during a pass are not.
- The callback is recorded as the sequence of paths it is invoked on. What `process_file` does when called back is modelled separately, by `ProcessFile`.
- `extract_metadata` and the periodic rescan: `librarian.py` calls `extract_metadata` and passes a `periodic_scan_interval`, and neither exists in the modelled `metadata_extractor.py` and `file_watcher.py`. The date comes from `extract_date_taken`, and the location from an uninterpreted reader.
- Librarian.DateOf / Librarian.Ingest: the date comes from the corrected chain `ExtractDateTaken`, not `ExtractDateTakenAsWritten`. So for an image whose DateTimeOriginal is not a string, the model archives the file under its mtime's day folder. The code as written instead raises `TypeError`, which `process_file`'s outer handler catches ("ERROR" status, file left in the inbox); see Findings.
- GPS extraction, PIL and its EXIF decoding: the EXIF tag map is an input. The `"DateTime"` tag is found by its one tag id (306), which is the only id PIL's `TAGS` names `"DateTime"`.
- SHA-256 internals are a deterministic function of the bytes fed. The digest is a 64-character string.
- `datetime.fromtimestamp` and its time zone are an input function. A `None` from it stands only for the `OSError`/`ValueError` that `extract_date_taken` catches; an `OverflowError`, which escapes the source, is not modelled. Times are whole seconds, whereas the source uses float times, which it only compares and subtracts.
- `should_process_file` is uninterpreted. Its body is not part of this model, and the example cases from its tests are not stated.
- The database engine, sessions and schema are out. The ledger is a map from digest to row, and reachability is the parameter `dbUp`. `ingested_at`, `created_at` and the surrogate `id` are server-generated and not modelled.
- The heartbeat's background thread and database writes are out; only its two fields are modelled.
- Librarian.LibrarianService.ProcessFile: the transient `"ERROR"` status is overwritten by the `finally` before the call returns. It is observable here only through `Outcome.Raised()`, not as a heartbeat state.
- `LibrarianService.__init__`'s database initialisation and its creation of the storage root are not modelled. Neither is `FileWatcher` construction from configuration beyond the inbox and thresholds.
- Logging.
- `shutil.move` is one atomic step on the same disk. Cross-device copy-then-delete and partial failures are not modelled.
- FileSystem.MakeDirs, FileSystem.UnlinkFile, FileSystem.MoveFile, CollisionHandler.DuplicateInFolder, Librarian.ResolveOutcomes and Librarian.IngestOutcomes: faults of `stat()` and `open()` are modelled per file (`canStat`, `canOpen`), and `exists()` and `is_file()` re-raise a `stat()` fault as `pathlib` does. Permission, disk-full and I/O failures of `mkdir`, `unlink`, `shutil.move` and `iterdir()` are not modelled, and a directory's `stat()` never faults. Those calls fail only for the structural reasons stated (a regular file in the way, a missing source, a taken name, a folder that is a file). So the logged unlink failures (Src/Librarian/librarian.py:142, 161) are unreachable here and `DuplicateDropped.unlinked` is always true, while `ScanFailed` and `MoveFailed` arise only from a `stat()` fault.
- Directory listing order is an input (`Env.listing`, or the `names` parameter). Completeness of listings is a stated precondition where a lemma needs it.
- File contents never change during a call, and no other process touches the disk meanwhile.
- `strptime` is modelled for ASCII text only. Non-ASCII digits and non-ASCII whitespace (U+0085, U+00A0 and the like) are not.
- MetadataExtractor.GetDatePathComponents: `%Y` is modelled zero-padded to four digits. CPython on glibc writes a year below 1000 unpadded, so a date parsed from `0999:01:01 00:00:00` is filed there under `999/999-01-01`, where the model says `0999/0999-01-01`. For years 1000 to 9999 the two agree (`FourDigitYearUnpadded`).
- FileSystem.Stat and FileWatcher.Check: a directory's `stat()` is modelled as failing, because directories carry no mtime here. So a pending path that has been replaced by a directory is dropped as `StatFailed`. In Python it passes `exists()`, is re-timed and, once settled, is promoted and handed to `process_file`. That call creates the day folder before hashing fails. The model's `DateOf` likewise finds no mtime for a directory.

## Findings

| source | as written | input that shows it | evidently intended | confidence | as-written member | corrected member |
|---|---|---|---|---|---|---|
| Src/Librarian/metadata_extractor.py:94-98 | `strptime` raises `TypeError` for a non-string tag value, and neither `except (ValueError, AttributeError)` at line 97 nor the handler at line 75 catches it, so `extract_date_taken` raises instead of falling back to the mtime | an image whose DateTimeOriginal tag holds a non-string value (bytes or a tuple) | `_parse_exif_datetime` returns `None` for anything that is not an Exif date string, and the date falls back to the mtime | not executed | MetadataExtractor.ExtractDateTakenAsWritten (shown by MetadataExtractor.NonTextDateTimeOriginalEscapes) | MetadataExtractor.ExtractDateTaken |

The stability check measures both `min_file_age` and `stability_delay` from
the file's mtime (Src/Librarian/file_watcher.py:134-139). There is no
separate registration clock, and the model follows the code.
