/** The ingest orchestrator: `LibrarianService.process_file` moves one stable
    inbox file into `storage/YYYY/YYYY-MM-DD/`, drops it when the day folder
    already holds its content, and records the archived file in the ledger
    (`media_assets`, one row per content digest). */
module Librarian {
  import opened Wrappers
  import opened FileSystem
  import opened CollisionHandler
  import opened MetadataExtractor
  import Digits

  // ---------------------------------------------------------------------
  // The ledger

  /** The `{"lat": …, "lon": …}` GPS value stored with an asset. */
  datatype Location = Location(lat: real, lon: real)

  /** A `MediaAsset` row: the content digest (the unique key), where the file
      came from and where it was archived, its size, its capture date and its
      location. */
  datatype MediaAsset = MediaAsset(
    fileHash: Digest,
    originalName: Name,
    originalPath: Path,
    finalPath: Path,
    sizeBytes: nat,
    capturedAt: DateTime,
    location: Option<Location>)

  /** The `media_assets` table, keyed by its unique `file_hash` column. */
  type Ledger = map<Digest, MediaAsset>

  /** Every row is stored under its own digest. */
  predicate KeyedByHash(ledger: Ledger) {
    forall k :: k in ledger ==> ledger[k].fileHash == k
  }

  /** The ways a ledger write raises. */
  datatype LedgerError = DatabaseUnavailable

  /** `_write_to_database`: raises when the database cannot be reached;
      otherwise inserts `asset` unless a row with its digest exists, in which
      case nothing changes. */
  function InsertIfAbsent(ledger: Ledger, dbUp: bool, asset: MediaAsset): (r: Result<Ledger, LedgerError>)
    ensures r.Failure? <==> !dbUp
    ensures r.Success? ==> r.value.Keys == ledger.Keys + {asset.fileHash}
    ensures r.Success? ==> forall k :: k in ledger ==> r.value[k] == ledger[k]
    ensures r.Success? && asset.fileHash !in ledger ==> r.value[asset.fileHash] == asset
  {
    if !dbUp then Failure(DatabaseUnavailable)
    else if asset.fileHash in ledger then Success(ledger)
    else Success(ledger[asset.fileHash := asset])
  }

  // ---------------------------------------------------------------------
  // What the orchestrator reads from the world

  /** The collaborators the orchestrator calls but whose code is not
      modelled: SHA-256, PIL's EXIF reader, the GPS reader, the local-time
      conversion of an mtime, the deny list, and the order in which
      `iterdir()` lists a directory. */
  datatype Env = Env(
    sha256: HashFunction,
    pilAvailable: bool,
    readExif: Bytes -> Option<ExifTags>,
    readLocation: Bytes -> Option<Location>,
    fromTimestamp: int -> Option<DateTime>,
    shouldProcess: Path -> bool,
    listing: FileSystem -> Dir -> seq<Name>)

  /** Directory listings cover every regular file, on every disk. */
  ghost predicate ListsCompletely(env: Env) {
    forall fs :: ListingComplete(fs, env.listing(fs))
  }

  /** The EXIF tags of the file; `None` when it cannot be opened. */
  function ExifOf(env: Env, fs: FileSystem, p: Path): Option<ExifTags> {
    match Open(fs, p)
    case None => None
    case Some(content) => env.readExif(content)
  }

  /** `extract_metadata(file_path)["captured_at"]`, with `extract_date_taken`
      as the date source. */
  function DateOf(env: Env, fs: FileSystem, p: Path): Option<DateTime> {
    ExtractDateTaken(env.pilAvailable, ExifOf(env, fs, p), Stat(fs, p), env.fromTimestamp)
  }

  /** `extract_metadata(file_path)["location"]` */
  function LocationOf(env: Env, fs: FileSystem, p: Path): Option<Location> {
    match Open(fs, p)
    case None => None
    case Some(content) => env.readLocation(content)
  }

  /** `storage_path / year / date_folder` */
  function DestinationDir(storage: Dir, dateTaken: DateTime): Dir {
    storage + [GetDatePathComponents(dateTaken).0, GetDatePathComponents(dateTaken).1]
  }

  /** The day folder sits two levels below the storage root: a folder named by
      the four-digit year, then one named `YYYY-MM-DD`, both reading back as
      the date's year, month and day. */
  lemma DestinationLayout(storage: Dir, dateTaken: DateTime)
    ensures var d := DestinationDir(storage, dateTaken);
      |d| == |storage| + 2 && d[..|storage|] == storage &&
      |d[|storage|]| == 4 && Digits.AllDigits(d[|storage|]) &&
      Digits.DecimalValue(d[|storage|]) == dateTaken.year &&
      |d[|storage| + 1]| == 10 && d[|storage| + 1][..4] == d[|storage|] &&
      d[|storage| + 1][4] == '-' && d[|storage| + 1][7] == '-' &&
      Digits.AllDigits(d[|storage| + 1][5..7]) && Digits.DecimalValue(d[|storage| + 1][5..7]) == dateTaken.month &&
      Digits.AllDigits(d[|storage| + 1][8..10]) && Digits.DecimalValue(d[|storage| + 1][8..10]) == dateTaken.day
  {
    DatePathComponentsDecode(dateTaken);
  }

  /** The folder of the documented example: a file dated 2025-06-15 goes to
      `2025/2025-06-15/`. */
  lemma DestinationExample(storage: Dir, dateTaken: DateTime)
    requires dateTaken.year == 2025 && dateTaken.month == 6 && dateTaken.day == 15
    ensures DestinationDir(storage, dateTaken) == storage + ["2025", "2025-06-15"]
  {
    assert Digits.ZeroPad(2025, 4) == "2025";
    assert Digits.ZeroPad(6, 2) == "06" && Digits.ZeroPad(15, 2) == "15";
    assert "2025" + "-" + "06" + "-" + "15" == "2025-06-15";
  }

  // ---------------------------------------------------------------------
  // One call of process_file, as a function of the disk and the ledger

  /** What the `try` block gathered before the collision decision. */
  datatype Intake = Intake(source: Path, fileHash: Digest, capturedAt: DateTime, location: Option<Location>)

  /** How a call of `process_file` ended: the early returns, the errors the
      outer `except Exception` catches, and an archived file (with whether
      its ledger write succeeded). */
  datatype Outcome =
    | Filtered
    | NoDate
    | DirectoryFailed
    | HashFailed
    | NamingFailed
    | DuplicateDropped(existing: Path, unlinked: bool)
    | ScanFailed
    | SourceMissing
    | MoveFailed
    | Archived(finalDestination: Path, recorded: bool)
  {
    /** The outcomes that pass through `except Exception`, which sets the
        heartbeat status to "ERROR" before the `finally`. */
    predicate Raised() {
      DirectoryFailed? || NamingFailed? || ScanFailed? || MoveFailed?
    }
  }

  /** The row `_write_to_database` is given for an archived file. */
  function AssetOf(c: Intake, finalDestination: Path, size: nat): MediaAsset {
    MediaAsset(c.fileHash, c.source.name, c.source, finalDestination, size, c.capturedAt, c.location)
  }

  /** The outcome with the disk and the ledger it leaves behind. */
  datatype Effect = Effect(outcome: Outcome, fs: FileSystem, ledger: Ledger)

  /** `process_file(file_path)` */
  function Ingest(env: Env, storage: Dir, dbUp: bool, fs: FileSystem, ledger: Ledger, p: Path): Effect {
    if !env.shouldProcess(p) then Effect(Filtered, fs, ledger)
    else Attempt(env, storage, dbUp, fs, ledger, p)
  }

  /** The `try` block: date, day folder, digest, then the collision decision. */
  function Attempt(env: Env, storage: Dir, dbUp: bool, fs: FileSystem, ledger: Ledger, p: Path): Effect {
    match DateOf(env, fs, p)
    case None => Effect(NoDate, fs, ledger)
    case Some(dateTaken) =>
      var destinationDir := DestinationDir(storage, dateTaken);
      match MakeDirs(fs, destinationDir)
      case Failure(_) => Effect(DirectoryFailed, fs, ledger)
      case Success(fs1) =>
        match HashOf(fs1, p, env.sha256)
        case None => Effect(HashFailed, fs1, ledger)
        case Some(fileHash) =>
          Resolve(env, dbUp, fs1, ledger, Intake(p, fileHash, dateTaken, LocationOf(env, fs, p)), destinationDir)
  }

  /** `handle_collision`, then the day-folder scan with the chosen
      destination excluded. */
  function Resolve(env: Env, dbUp: bool, fs: FileSystem, ledger: Ledger, c: Intake, destinationDir: Dir): Effect {
    var destinationFile := Path(destinationDir, c.source.name);
    match HandleCollision(fs, destinationFile, c.fileHash, env.sha256)
    case Failure(_) => Effect(NamingFailed, fs, ledger)
    case Success(Duplicate(_)) => DropSource(fs, ledger, c.source, destinationFile)
    case Success(Move(finalDestination, _)) =>
      match DuplicateInFolder(fs, destinationDir, env.listing(fs)(destinationDir), c.fileHash,
                              Some(finalDestination), env.sha256)
      case Failure(_) => Effect(ScanFailed, fs, ledger)
      case Success(Some(existing)) => DropSource(fs, ledger, c.source, existing)
      case Success(None) => Archive(dbUp, fs, ledger, c, finalDestination)
  }

  /** A duplicate: delete the source from the inbox; a failed `unlink()` is
      only logged. */
  function DropSource(fs: FileSystem, ledger: Ledger, p: Path, existing: Path): Effect {
    match UnlinkFile(fs, p)
    case Success(fs1) => Effect(DuplicateDropped(existing, true), fs1, ledger)
    case Failure(_) => Effect(DuplicateDropped(existing, false), fs, ledger)
  }

  /** The `if final_destination:` block: make sure the parent exists, check
      the source is still there, move it, then write the ledger row.  An
      `OSError` of the first three steps (a `mkdir` that fails, an `exists()`
      whose `stat()` faults, a failed move) is re-raised; a failed `stat()`
      of the archived file or a failed write is logged and the move
      stands. */
  function Archive(dbUp: bool, fs: FileSystem, ledger: Ledger, c: Intake, finalDestination: Path): Effect {
    match MakeDirs(fs, finalDestination.dir)
    case Failure(_) => Effect(MoveFailed, fs, ledger)
    case Success(fs1) =>
      match ExistsOrRaise(fs1, c.source)
      case Failure(_) => Effect(MoveFailed, fs1, ledger)
      case Success(false) => Effect(SourceMissing, fs1, ledger)
      case Success(true) =>
        match MoveFile(fs1, c.source, finalDestination)
        case Failure(_) => Effect(MoveFailed, fs1, ledger)
        case Success(fs2) =>
          match StatSize(fs2, finalDestination)
          case None => Effect(Archived(finalDestination, false), fs2, ledger)
          case Some(size) =>
            match InsertIfAbsent(ledger, dbUp, AssetOf(c, finalDestination, size))
            case Failure(_) => Effect(Archived(finalDestination, false), fs2, ledger)
            case Success(ledger1) => Effect(Archived(finalDestination, true), fs2, ledger1)
  }

  // ---------------------------------------------------------------------
  // What one call does

  /** The move block on a destination that is free and whose folder exists:
      a source whose `stat()` faults makes `exists()` raise, so nothing is
      moved or recorded; any other source is moved, and the ledger write
      succeeds exactly when the database is up. */
  lemma ArchiveFacts(dbUp: bool, fs: FileSystem, ledger: Ledger, c: Intake, finalDestination: Path)
    requires c.source in fs.files && !Exists(fs, finalDestination)
    requires finalDestination.dir in fs.dirs && MakeDirs(fs, finalDestination.dir).Success?
    ensures var e := Archive(dbUp, fs, ledger, c, finalDestination);
      StatFault(fs, c.source) ==>
        e.outcome == MoveFailed && e.fs.files == fs.files && fs.dirs <= e.fs.dirs && e.ledger == ledger
    ensures var e := Archive(dbUp, fs, ledger, c, finalDestination);
      !StatFault(fs, c.source) ==>
        e.outcome.Archived? && e.outcome.finalDestination == finalDestination &&
        e.fs.files == (fs.files - {c.source})[finalDestination := fs.files[c.source]] &&
        fs.dirs <= e.fs.dirs &&
        (e.outcome.recorded <==> dbUp) &&
        e.ledger == if e.outcome.recorded
                    then InsertIfAbsent(ledger, dbUp, AssetOf(c, finalDestination, |fs.files[c.source].content|)).value
                    else ledger
  {
    var fs1 := MakeDirs(fs, finalDestination.dir).value;
    assert AsDir(finalDestination) !in Ancestors(finalDestination.dir);
    assert !Exists(fs1, finalDestination);
    assert Exists(fs1, c.source);
    var fs2 := MoveFile(fs1, c.source, finalDestination).value;
    assert fs2.files[finalDestination] == fs.files[c.source];
  }

  /** The collision decision and the day-folder scan, once the day folder
      exists and the source's digest is known, end in a naming failure (only
      when the intended name is taken), a dropped duplicate, a scan that
      raised on a day-folder file whose `stat()` faults, a move block that
      raised on a source whose `stat()` faults, or an archived file.  The
      failures change no file and no row. */
  lemma ResolveOutcomes(env: Env, dbUp: bool, fs: FileSystem, ledger: Ledger, c: Intake, destinationDir: Dir)
    requires c.source in fs.files && HashOf(fs, c.source, env.sha256) == Some(c.fileHash)
    requires destinationDir in fs.dirs && MakeDirs(fs, destinationDir).Success?
    ensures var e := Resolve(env, dbUp, fs, ledger, c, destinationDir);
      (e.outcome.NamingFailed? || e.outcome.DuplicateDropped? || e.outcome.ScanFailed? ||
       e.outcome.MoveFailed? || e.outcome.Archived?) &&
      (e.outcome.NamingFailed? ==> e.fs == fs && e.ledger == ledger && Exists(fs, Path(destinationDir, c.source.name)))
    ensures var e := Resolve(env, dbUp, fs, ledger, c, destinationDir);
      (e.outcome.ScanFailed? ==>
        e.fs == fs && e.ledger == ledger && exists q :: q in fs.files && q.dir == destinationDir && StatFault(fs, q)) &&
      (e.outcome.MoveFailed? ==>
        StatFault(fs, c.source) && e.fs.files == fs.files && fs.dirs <= e.fs.dirs && e.ledger == ledger)
  {
    var destinationFile := Path(destinationDir, c.source.name);
    match HandleCollision(fs, destinationFile, c.fileHash, env.sha256)
    case Failure(_) =>
    case Success(Duplicate(_)) =>
    case Success(Move(final, _)) =>
      var names := env.listing(fs)(destinationDir);
      var scan := DuplicateInFolder(fs, destinationDir, names, c.fileHash, Some(final), env.sha256);
      assert |destinationDir| > 0 ==> destinationDir[..|destinationDir|] == destinationDir;
      DuplicateInFolderComplete(fs, destinationDir, names, c.fileHash, Some(final), env.sha256);
      if scan.Failure? {
        var k :| 0 <= k < |names| && StatFault(fs, Path(destinationDir, names[k]));
        assert Path(destinationDir, names[k]) in fs.files;
      }
      if scan == Success(None) {
        ArchiveFacts(dbUp, fs, ledger, c, final);
      }
  }

  /** A duplicate found by name or by the scan is a regular file of the day
      folder with the source's digest, and the source is deleted. */
  lemma ResolveDuplicate(env: Env, dbUp: bool, fs: FileSystem, ledger: Ledger, c: Intake, destinationDir: Dir)
    requires c.source in fs.files && HashOf(fs, c.source, env.sha256) == Some(c.fileHash)
    requires destinationDir in fs.dirs
    ensures var e := Resolve(env, dbUp, fs, ledger, c, destinationDir);
      e.outcome.DuplicateDropped? ==>
        e.outcome.unlinked && e.fs.files == fs.files - {c.source} && fs.dirs <= e.fs.dirs && e.ledger == ledger &&
        e.outcome.existing.dir == destinationDir && e.outcome.existing in fs.files &&
        HashOf(fs, e.outcome.existing, env.sha256) == Some(c.fileHash)
  {
    var destinationFile := Path(destinationDir, c.source.name);
    match HandleCollision(fs, destinationFile, c.fileHash, env.sha256)
    case Failure(_) =>
    case Success(Duplicate(_)) =>
    case Success(Move(final, _)) =>
      var scan := DuplicateInFolder(fs, destinationDir, env.listing(fs)(destinationDir), c.fileHash,
                                    Some(final), env.sha256);
      if scan == Success(None) {
        assert !Archive(dbUp, fs, ledger, c, final).outcome.DuplicateDropped?;
      }
  }

  /** A file that is neither a duplicate nor blocked by a full name range is
      moved to a path of the day folder that did not exist (its own name when
      that is free), no other regular file of the folder has its digest when
      listings are complete, and the ledger gets the row for it. */
  lemma ResolveArchived(env: Env, dbUp: bool, fs: FileSystem, ledger: Ledger, c: Intake, destinationDir: Dir)
    requires c.source in fs.files && HashOf(fs, c.source, env.sha256) == Some(c.fileHash)
    requires destinationDir in fs.dirs && MakeDirs(fs, destinationDir).Success?
    ensures var e := Resolve(env, dbUp, fs, ledger, c, destinationDir);
      e.outcome.Archived? ==>
        var final := e.outcome.finalDestination;
        final.dir == destinationDir && !Exists(fs, final) &&
        (!Exists(fs, Path(destinationDir, c.source.name)) ==> final == Path(destinationDir, c.source.name)) &&
        (ListsCompletely(env) ==>
          forall q :: q in fs.files && q.dir == destinationDir && q != final ==>
            HashOf(fs, q, env.sha256) != Some(c.fileHash)) &&
        e.fs.files == (fs.files - {c.source})[final := fs.files[c.source]] &&
        fs.dirs <= e.fs.dirs && fs.files[c.source].canStat &&
        (e.outcome.recorded <==> dbUp) &&
        e.ledger == if e.outcome.recorded
                    then InsertIfAbsent(ledger, dbUp, AssetOf(c, final, |fs.files[c.source].content|)).value
                    else ledger
  {
    var destinationFile := Path(destinationDir, c.source.name);
    match HandleCollision(fs, destinationFile, c.fileHash, env.sha256)
    case Failure(_) =>
    case Success(Duplicate(_)) =>
    case Success(Move(final, _)) =>
      var names := env.listing(fs)(destinationDir);
      var scan := DuplicateInFolder(fs, destinationDir, names, c.fileHash, Some(final), env.sha256);
      if scan == Success(None) {
        if ListsCompletely(env) {
          assert ListingComplete(fs, env.listing(fs));
          ListingCompleteListsDir(fs, env.listing(fs), destinationDir);
          assert |destinationDir| > 0 ==> destinationDir[..|destinationDir|] == destinationDir;
          DuplicateInFolderComplete(fs, destinationDir, names, c.fileHash, Some(final), env.sha256);
        }
        ArchiveFacts(dbUp, fs, ledger, c, final);
      }
  }

  /** How one call can end.  Rejected and undated files leave the disk and
      the ledger as they were, as does a day folder that cannot be created;
      an unreadable file, a naming failure, a failed scan or a failed move
      block leaves only the new day folder.  The scan fails only on a
      day-folder file whose `stat()` faults and the move block only on a
      source whose `stat()` faults; a source found missing cannot happen on
      a disk nothing else touches during the call. */
  lemma IngestOutcomes(env: Env, storage: Dir, dbUp: bool, fs: FileSystem, ledger: Ledger, p: Path)
    ensures var e := Ingest(env, storage, dbUp, fs, ledger, p);
      (e.outcome.Filtered? <==> !env.shouldProcess(p)) &&
      (e.outcome.NoDate? <==> env.shouldProcess(p) && DateOf(env, fs, p).None?) &&
      (e.outcome.Filtered? || e.outcome.NoDate? || e.outcome.DirectoryFailed? ==> e.fs == fs && e.ledger == ledger) &&
      !e.outcome.SourceMissing? &&
      fs.dirs <= e.fs.dirs
    ensures var e := Ingest(env, storage, dbUp, fs, ledger, p);
      !(e.outcome.Filtered? || e.outcome.NoDate?) ==>
        DateOf(env, fs, p).Some? &&
        var destinationDir := DestinationDir(storage, DateOf(env, fs, p).value);
        (e.outcome.DirectoryFailed? <==> MakeDirs(fs, destinationDir).Failure?) &&
        (!e.outcome.DirectoryFailed? ==> destinationDir in e.fs.dirs) &&
        (e.outcome.HashFailed? <==> MakeDirs(fs, destinationDir).Success? && HashOf(fs, p, env.sha256).None?) &&
        (e.outcome.HashFailed? || e.outcome.NamingFailed? || e.outcome.ScanFailed? || e.outcome.MoveFailed? ==>
           e.fs.files == fs.files && e.ledger == ledger) &&
        (e.outcome.NamingFailed? ==> Exists(fs, Path(destinationDir, p.name))) &&
        (e.outcome.ScanFailed? ==> exists q :: q in fs.files && q.dir == destinationDir && StatFault(fs, q)) &&
        (e.outcome.MoveFailed? ==> StatFault(fs, p))
  {
    if env.shouldProcess(p) && DateOf(env, fs, p).Some? {
      var dateTaken := DateOf(env, fs, p).value;
      var destinationDir := DestinationDir(storage, dateTaken);
      if MakeDirs(fs, destinationDir).Success? {
        var fs1 := MakeDirs(fs, destinationDir).value;
        assert HashOf(fs1, p, env.sha256) == HashOf(fs, p, env.sha256);
        if HashOf(fs1, p, env.sha256).Some? {
          var c := Intake(p, HashOf(fs1, p, env.sha256).value, dateTaken, LocationOf(env, fs, p));
          assert MakeDirs(fs1, destinationDir).Success?;
          ResolveOutcomes(env, dbUp, fs1, ledger, c, destinationDir);
          ResolveDuplicate(env, dbUp, fs1, ledger, c, destinationDir);
          ResolveArchived(env, dbUp, fs1, ledger, c, destinationDir);
          assert Exists(fs1, Path(destinationDir, p.name)) == Exists(fs, Path(destinationDir, p.name)) by {
            assert AsDir(Path(destinationDir, p.name)) !in Ancestors(destinationDir);
          }
        }
      }
    }
  }

  /** A duplicate of a file already in the day folder, by name or by
      content, is deleted from the inbox; nothing else changes. */
  lemma IngestDuplicate(env: Env, storage: Dir, dbUp: bool, fs: FileSystem, ledger: Ledger, p: Path)
    ensures var e := Ingest(env, storage, dbUp, fs, ledger, p);
      e.outcome.DuplicateDropped? ==>
        DateOf(env, fs, p).Some? &&
        var destinationDir := DestinationDir(storage, DateOf(env, fs, p).value);
        e.outcome.unlinked && e.fs.files == fs.files - {p} && e.ledger == ledger &&
        e.outcome.existing.dir == destinationDir && e.outcome.existing in fs.files &&
        HashOf(fs, p, env.sha256).Some? && HashOf(fs, e.outcome.existing, env.sha256) == HashOf(fs, p, env.sha256)
  {
    if env.shouldProcess(p) && DateOf(env, fs, p).Some? {
      var dateTaken := DateOf(env, fs, p).value;
      var destinationDir := DestinationDir(storage, dateTaken);
      if MakeDirs(fs, destinationDir).Success? {
        var fs1 := MakeDirs(fs, destinationDir).value;
        assert HashOf(fs1, p, env.sha256) == HashOf(fs, p, env.sha256);
        if HashOf(fs1, p, env.sha256).Some? {
          var c := Intake(p, HashOf(fs1, p, env.sha256).value, dateTaken, LocationOf(env, fs, p));
          ResolveDuplicate(env, dbUp, fs1, ledger, c, destinationDir);
          var e := Resolve(env, dbUp, fs1, ledger, c, destinationDir);
          if e.outcome.DuplicateDropped? {
            SameNodeSameDigest(fs1, e.outcome.existing, fs, e.outcome.existing, env.sha256);
          }
        }
      }
    }
  }

  /** Any other file is moved, byte for byte, to a path of its day folder
      that did not exist (its own name when that is free), no other regular
      file of the folder has its content when listings are complete, and the
      ledger is given the row describing it. */
  lemma IngestArchived(env: Env, storage: Dir, dbUp: bool, fs: FileSystem, ledger: Ledger, p: Path)
    ensures var e := Ingest(env, storage, dbUp, fs, ledger, p);
      e.outcome.Archived? ==>
        DateOf(env, fs, p).Some? &&
        var destinationDir := DestinationDir(storage, DateOf(env, fs, p).value);
        var final := e.outcome.finalDestination;
        p in fs.files && HashOf(fs, p, env.sha256).Some? &&
        final.dir == destinationDir && !Exists(fs, final) &&
        (!Exists(fs, Path(destinationDir, p.name)) ==> final == Path(destinationDir, p.name)) &&
        (ListsCompletely(env) ==>
          forall q :: q in fs.files && q.dir == destinationDir && q != final ==>
            HashOf(fs, q, env.sha256) != HashOf(fs, p, env.sha256)) &&
        e.fs.files == (fs.files - {p})[final := fs.files[p]] &&
        fs.files[p].canStat && (e.outcome.recorded <==> dbUp) &&
        e.ledger == if e.outcome.recorded
                    then InsertIfAbsent(ledger, dbUp, MediaAsset(HashOf(fs, p, env.sha256).value, p.name, p, final,
                                        |fs.files[p].content|, DateOf(env, fs, p).value, LocationOf(env, fs, p))).value
                    else ledger
  {
    if env.shouldProcess(p) && DateOf(env, fs, p).Some? {
      var dateTaken := DateOf(env, fs, p).value;
      var destinationDir := DestinationDir(storage, dateTaken);
      if MakeDirs(fs, destinationDir).Success? {
        var fs1 := MakeDirs(fs, destinationDir).value;
        assert HashOf(fs1, p, env.sha256) == HashOf(fs, p, env.sha256);
        if HashOf(fs1, p, env.sha256).Some? {
          var c := Intake(p, HashOf(fs1, p, env.sha256).value, dateTaken, LocationOf(env, fs, p));
          assert MakeDirs(fs1, destinationDir).Success?;
          ResolveArchived(env, dbUp, fs1, ledger, c, destinationDir);
          assert Exists(fs1, Path(destinationDir, p.name)) == Exists(fs, Path(destinationDir, p.name)) by {
            assert AsDir(Path(destinationDir, p.name)) !in Ancestors(destinationDir);
          }
          forall q | q in fs.files
            ensures HashOf(fs1, q, env.sha256) == HashOf(fs, q, env.sha256)
          {
          }
        }
      }
    }
  }

  /** No file other than the source is ever changed or removed, and the only
      path that can appear is the archived one: an archive file is never
      overwritten.  The source itself is only ever removed, never altered. */
  lemma NeverOverwrites(env: Env, storage: Dir, dbUp: bool, fs: FileSystem, ledger: Ledger, p: Path)
    ensures var e := Ingest(env, storage, dbUp, fs, ledger, p);
      forall q :: q in fs.files && q != p ==> q in e.fs.files && e.fs.files[q] == fs.files[q]
    ensures var e := Ingest(env, storage, dbUp, fs, ledger, p);
      forall q :: q in e.fs.files && q !in fs.files ==> e.outcome.Archived? && q == e.outcome.finalDestination
    ensures var e := Ingest(env, storage, dbUp, fs, ledger, p);
      p in e.fs.files ==> p in fs.files && e.fs.files[p] == fs.files[p]
  {
    var e := Ingest(env, storage, dbUp, fs, ledger, p);
    if e.outcome.DuplicateDropped? {
      IngestDuplicate(env, storage, dbUp, fs, ledger, p);
    } else if e.outcome.Archived? {
      IngestArchived(env, storage, dbUp, fs, ledger, p);
    } else {
      IngestOutcomes(env, storage, dbUp, fs, ledger, p);
    }
  }

  /** No two regular files of folder `d` have the same digest. */
  predicate UniqueContent(fs: FileSystem, d: Dir, h: HashFunction) {
    forall q1, q2 ::
      (q1 in fs.files && q2 in fs.files && q1.dir == d && q2.dir == d && q1 != q2 && HashOf(fs, q1, h).Some?) ==>
      HashOf(fs, q1, h) != HashOf(fs, q2, h)
  }

  /** The digest of a file depends on its node alone. */
  lemma SameNodeSameDigest(fs1: FileSystem, q1: Path, fs2: FileSystem, q2: Path, h: HashFunction)
    requires q1 in fs1.files && q2 in fs2.files && fs1.files[q1] == fs2.files[q2]
    ensures HashOf(fs1, q1, h) == HashOf(fs2, q2, h)
  {
  }

  /** At most one archived copy of any content per folder: when listings are
      complete, a call never leaves two files with the same digest in a folder
      that had none. */
  lemma KeepsContentUnique(env: Env, storage: Dir, dbUp: bool, fs: FileSystem, ledger: Ledger, p: Path, d: Dir)
    requires ListsCompletely(env)
    requires UniqueContent(fs, d, env.sha256)
    ensures UniqueContent(Ingest(env, storage, dbUp, fs, ledger, p).fs, d, env.sha256)
  {
    var e := Ingest(env, storage, dbUp, fs, ledger, p);
    var h := env.sha256;
    NeverOverwrites(env, storage, dbUp, fs, ledger, p);
    if e.outcome.Archived? {
      IngestArchived(env, storage, dbUp, fs, ledger, p);
    }
    forall q1, q2 | q1 in e.fs.files && q2 in e.fs.files && q1.dir == d && q2.dir == d && q1 != q2 &&
                    HashOf(e.fs, q1, h).Some?
      ensures HashOf(e.fs, q1, h) != HashOf(e.fs, q2, h)
    {
      var final := if e.outcome.Archived? then Some(e.outcome.finalDestination) else None;
      var o1 := if final == Some(q1) then p else q1;
      var o2 := if final == Some(q2) then p else q2;
      SameNodeSameDigest(e.fs, q1, fs, o1, h);
      SameNodeSameDigest(e.fs, q2, fs, o2, h);
    }
  }

  /** `_write_to_database` is an insert-if-absent: existing rows are never
      changed, and the ledger changes only for an archived file whose write
      succeeded. */
  lemma LedgerRowsKept(env: Env, storage: Dir, dbUp: bool, fs: FileSystem, ledger: Ledger, p: Path)
    ensures var e := Ingest(env, storage, dbUp, fs, ledger, p);
      forall k :: k in ledger ==> k in e.ledger && e.ledger[k] == ledger[k]
    ensures var e := Ingest(env, storage, dbUp, fs, ledger, p);
      !(e.outcome.Archived? && e.outcome.recorded) ==> e.ledger == ledger
  {
    var e := Ingest(env, storage, dbUp, fs, ledger, p);
    if e.outcome.DuplicateDropped? {
      IngestDuplicate(env, storage, dbUp, fs, ledger, p);
    } else if e.outcome.Archived? {
      IngestArchived(env, storage, dbUp, fs, ledger, p);
    } else {
      IngestOutcomes(env, storage, dbUp, fs, ledger, p);
    }
  }

  /** The only row a call can add is keyed by the source's digest and
      describes the archived file: its name and inbox path, where it was
      archived, its size, its date and its location. */
  lemma LedgerNewRow(env: Env, storage: Dir, dbUp: bool, fs: FileSystem, ledger: Ledger, p: Path)
    ensures var e := Ingest(env, storage, dbUp, fs, ledger, p);
      forall k :: k in e.ledger && k !in ledger ==>
        e.outcome.Archived? && e.outcome.recorded && HashOf(fs, p, env.sha256) == Some(k) &&
        e.ledger[k] == MediaAsset(k, p.name, p, e.outcome.finalDestination, |fs.files[p].content|,
                                  DateOf(env, fs, p).value, LocationOf(env, fs, p))
  {
    var e := Ingest(env, storage, dbUp, fs, ledger, p);
    if e.outcome.DuplicateDropped? {
      IngestDuplicate(env, storage, dbUp, fs, ledger, p);
    } else if e.outcome.Archived? {
      IngestArchived(env, storage, dbUp, fs, ledger, p);
    } else {
      IngestOutcomes(env, storage, dbUp, fs, ledger, p);
    }
  }

  /** A ledger whose rows sit under their own digests stays so, so it never
      holds two rows for one digest. */
  lemma LedgerStaysKeyed(env: Env, storage: Dir, dbUp: bool, fs: FileSystem, ledger: Ledger, p: Path)
    requires KeyedByHash(ledger)
    ensures KeyedByHash(Ingest(env, storage, dbUp, fs, ledger, p).ledger)
    ensures var l := Ingest(env, storage, dbUp, fs, ledger, p).ledger;
      forall k1, k2 :: k1 in l && k2 in l && l[k1].fileHash == l[k2].fileHash ==> k1 == k2
  {
    LedgerRowsKept(env, storage, dbUp, fs, ledger, p);
    LedgerNewRow(env, storage, dbUp, fs, ledger, p);
  }

  /** The documented example: `photo.jpg`, dated 2025-06-15 and dropped into
      an inbox while that day's folder holds nothing, is archived as
      `2025/2025-06-15/photo.jpg` with its bytes, and leaves the inbox. */
  lemma PhotoGoesToItsDayFolder(env: Env, storage: Dir, dbUp: bool, fs: FileSystem, ledger: Ledger, p: Path)
    requires env.shouldProcess(p) && p.name == "photo.jpg" && p in fs.files
    requires fs.files[p].canOpen && fs.files[p].canStat
    requires DateOf(env, fs, p).Some?
    requires DateOf(env, fs, p).value.year == 2025 && DateOf(env, fs, p).value.month == 6 &&
             DateOf(env, fs, p).value.day == 15
    requires MakeDirs(fs, storage + ["2025", "2025-06-15"]).Success?
    requires forall q :: q in fs.files ==> q.dir != storage + ["2025", "2025-06-15"]
    requires !Exists(fs, Path(storage + ["2025", "2025-06-15"], "photo.jpg"))
    ensures var e := Ingest(env, storage, dbUp, fs, ledger, p);
      e.outcome.Archived? && e.outcome.finalDestination == Path(storage + ["2025", "2025-06-15"], "photo.jpg") &&
      p !in e.fs.files && e.outcome.finalDestination in e.fs.files &&
      e.fs.files[e.outcome.finalDestination] == fs.files[p]
  {
    DestinationExample(storage, DateOf(env, fs, p).value);
    var e := Ingest(env, storage, dbUp, fs, ledger, p);
    IngestOutcomes(env, storage, dbUp, fs, ledger, p);
    IngestDuplicate(env, storage, dbUp, fs, ledger, p);
    IngestArchived(env, storage, dbUp, fs, ledger, p);
    assert e.outcome.Archived?;
    var final := e.outcome.finalDestination;
    assert e.fs.files == (fs.files - {p})[final := fs.files[p]];
    assert p != final;
  }

  // ---------------------------------------------------------------------
  // The service object

  /** The two heartbeat fields the orchestrator writes. */
  class Heartbeat {
    var currentTask: Option<string>
    var status: string

    constructor ()
      ensures currentTask == None && status == "OK"
    {
      currentTask := None;
      status := "OK";
    }

    /** `set_current_task` */
    method SetCurrentTask(task: Option<string>)
      modifies this
      ensures currentTask == task && status == old(status)
    {
      currentTask := task;
    }

    /** `set_status` */
    method SetStatus(s: string)
      modifies this
      ensures status == s && currentTask == old(currentTask)
    {
      status := s;
    }
  }

  /** `LibrarianService`: the archive root, the collaborators, the disk, the
      heartbeat and the ledger. */
  class LibrarianService {
    const storagePath: Dir
    const env: Env
    const disk: Disk
    const heartbeat: Heartbeat
    var ledger: Ledger

    predicate Valid()
      reads this
    {
      KeyedByHash(ledger)
    }

    /** A service over an existing `media_assets` table `ledger0`, which
        outlives any one service. */
    constructor (storagePath: Dir, env: Env, disk: Disk, ledger0: Ledger)
      requires KeyedByHash(ledger0)
      ensures this.storagePath == storagePath && this.env == env && this.disk == disk
      ensures fresh(heartbeat) && heartbeat.currentTask == None && heartbeat.status == "OK"
      ensures ledger == ledger0 && Valid()
    {
      this.storagePath := storagePath;
      this.env := env;
      this.disk := disk;
      heartbeat := new Heartbeat();
      ledger := ledger0;
    }

    /** `_write_to_database`: an insert-if-absent keyed by digest; `ok` is
        false when it raised. */
    method WriteToDatabase(asset: MediaAsset, dbUp: bool) returns (ok: bool)
      modifies this
      ensures ok == dbUp
      ensures ledger == if ok then InsertIfAbsent(old(ledger), dbUp, asset).value else old(ledger)
    {
      if !dbUp {
        return false;
      }
      if asset.fileHash in ledger {
        return true;
      }
      ledger := ledger[asset.fileHash := asset];
      return true;
    }

    /** `process_file(file_path)`: the deny-list check, then the `try`
        block; an error it raises sets the status to "ERROR", and the
        `finally` clears the task and sets the status back to "OK". */
    method ProcessFile(filePath: Path, dbUp: bool) returns (outcome: Outcome)
      requires Valid()
      modifies this, disk, heartbeat
      ensures Valid()
      ensures var e := Ingest(env, storagePath, dbUp, old(disk.state), old(ledger), filePath);
        outcome == e.outcome && disk.state == e.fs && ledger == e.ledger
      ensures outcome.Filtered? ==>
        heartbeat.currentTask == old(heartbeat.currentTask) && heartbeat.status == old(heartbeat.status)
      ensures !outcome.Filtered? ==> heartbeat.currentTask == None && heartbeat.status == "OK"
    {
      if !env.shouldProcess(filePath) {
        return Filtered;
      }
      ghost var fs0, ledger0 := disk.state, ledger;
      heartbeat.SetCurrentTask(Some("Processing " + filePath.name));
      outcome := ProcessSteps(filePath, dbUp);
      if outcome.Raised() {
        heartbeat.SetStatus("ERROR");
      }
      heartbeat.SetCurrentTask(None);
      heartbeat.SetStatus("OK");
      LedgerStaysKeyed(env, storagePath, dbUp, fs0, ledger0, filePath);
    }

    /** The `try` block of `process_file`. */
    method ProcessSteps(filePath: Path, dbUp: bool) returns (outcome: Outcome)
      requires env.shouldProcess(filePath)
      modifies this, disk, heartbeat
      ensures var e := Ingest(env, storagePath, dbUp, old(disk.state), old(ledger), filePath);
        outcome == e.outcome && disk.state == e.fs && ledger == e.ledger
      ensures !outcome.Filtered?
    {
      var dateTaken := DateOf(env, disk.state, filePath);
      var location := LocationOf(env, disk.state, filePath);
      if dateTaken.None? {
        heartbeat.SetCurrentTask(None);
        return NoDate;
      }
      var (year, dateFolder) := GetDatePathComponents(dateTaken.value);
      var destinationDir := storagePath + [year, dateFolder];
      var made := disk.EnsureDirectoryExists(destinationDir);
      if !made {
        return DirectoryFailed;
      }
      var fileHash := CalculateFileHash(disk.state, filePath, DefaultChunkSize, env.sha256);
      if fileHash.None? {
        return HashFailed;
      }
      var destinationFile := Path(destinationDir, filePath.name);
      var resolution := HandleCollision(disk.state, destinationFile, fileHash.value, env.sha256);
      if resolution.Failure? {
        return NamingFailed;
      }
      if resolution.value.Duplicate? {
        var unlinked := disk.Unlink(filePath);
        return DuplicateDropped(destinationFile, unlinked);
      }
      var finalDestination := resolution.value.finalDestination;
      var existingDuplicate := CheckDuplicateInDateFolder(disk.state, destinationDir, fileHash.value,
                                                          Some(finalDestination),
                                                          env.listing(disk.state)(destinationDir), env.sha256);
      if existingDuplicate.Failure? {
        return ScanFailed;
      }
      if existingDuplicate.value.Some? {
        var unlinked := disk.Unlink(filePath);
        return DuplicateDropped(existingDuplicate.value.value, unlinked);
      }
      outcome := ArchiveFile(Intake(filePath, fileHash.value, dateTaken.value, location), finalDestination, dbUp);
    }

    /** The `if final_destination:` block of `process_file`. */
    method ArchiveFile(c: Intake, finalDestination: Path, dbUp: bool) returns (outcome: Outcome)
      modifies this, disk
      ensures var e := Archive(dbUp, old(disk.state), old(ledger), c, finalDestination);
        outcome == e.outcome && disk.state == e.fs && ledger == e.ledger
      ensures !outcome.Filtered?
    {
      var made := disk.EnsureDirectoryExists(finalDestination.dir);
      if !made {
        return MoveFailed;
      }
      var sourceExists := ExistsOrRaise(disk.state, c.source);
      if sourceExists.Failure? {
        return MoveFailed;
      }
      if !sourceExists.value {
        return SourceMissing;
      }
      var moved := disk.Move(c.source, finalDestination);
      if !moved {
        return MoveFailed;
      }
      var size := StatSize(disk.state, finalDestination);
      if size.None? {
        return Archived(finalDestination, false);
      }
      var recorded := WriteToDatabase(AssetOf(c, finalDestination, size.value), dbUp);
      return Archived(finalDestination, recorded);
    }
  }
}
