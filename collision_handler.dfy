/** Content hashing, collision-free naming and duplicate detection
    (Src/Librarian/collision_handler.py). */
module CollisionHandler {
  import opened Wrappers
  import opened FileSystem
  import opened Digits

  /** A SHA-256 hex digest: always 64 characters, so never the empty string. */
  type Digest = s: string | |s| == 64
    witness "0000000000000000000000000000000000000000000000000000000000000000"

  /** SHA-256 (FIPS 180-4) as a deterministic function of the bytes fed to
      the hasher.  Its internals are not modelled. */
  type HashFunction = Bytes -> Digest

  /** `calculate_file_hash`'s default `chunk_size`. */
  const DefaultChunkSize: int := 8192

  /** `generate_unique_filename` gives up once its counter passes this bound. */
  const MaxCounter: nat := 10000

  /** A `hashlib.sha256()` object: its state is everything fed so far. */
  class Sha256 {
    const digestOf: HashFunction
    var fed: Bytes

    constructor (h: HashFunction)
      ensures digestOf == h && fed == []
    {
      digestOf := h;
      fed := [];
    }

    /** `sha256.update(chunk)` */
    method Update(chunk: Bytes)
      modifies this
      ensures fed == old(fed) + chunk
    {
      fed := fed + chunk;
    }

    /** `sha256.hexdigest()` */
    method HexDigest() returns (d: Digest)
      ensures d == digestOf(fed)
    {
      d := digestOf(fed);
    }
  }

  /** A file opened with `open(path, 'rb')`. */
  class BinaryReader {
    const data: Bytes
    var pos: nat

    constructor (content: Bytes)
      ensures data == content && pos == 0
    {
      data := content;
      pos := 0;
    }

    /** `f.read(n)`: up to `n` bytes from the current position; everything
        that is left when `n` is negative; nothing when `n` is zero. */
    method Read(n: int) returns (chunk: Bytes)
      requires pos <= |data|
      modifies this
      ensures old(pos) <= pos <= |data|
      ensures chunk == data[old(pos)..pos]
      ensures n < 0 ==> pos == |data|
      ensures n >= 0 ==> pos == if old(pos) + n <= |data| then old(pos) + n else |data|
    {
      var end := if n < 0 || pos + n > |data| then |data| else pos + n;
      chunk := data[pos..end];
      pos := end;
    }
  }

  /** The digest of the file at `p`, or `None` when it cannot be opened. */
  function HashOf(fs: FileSystem, p: Path, h: HashFunction): (r: Option<Digest>)
    ensures r.Some? <==> p in fs.files && fs.files[p].canOpen
    ensures r.Some? ==> r.value == h(fs.files[p].content)
  {
    match Open(fs, p)
    case None => None
    case Some(content) => Some(h(content))
  }

  /** `calculate_file_hash`: feeds the file to the hasher chunk by chunk until
      a read returns nothing.  With any non-zero chunk size every byte is fed
      exactly once and in order, so the digest is that of the whole content;
      `read(0)` returns nothing at once, so a chunk size of zero hashes the
      empty string. */
  method CalculateFileHash(fs: FileSystem, filePath: Path, chunkSize: int, h: HashFunction)
    returns (r: Option<Digest>)
    ensures chunkSize != 0 ==> r == HashOf(fs, filePath, h)
    ensures chunkSize == 0 ==> r == if Open(fs, filePath).Some? then Some(h([])) else None
  {
    var sha256 := new Sha256(h);
    var contentRead := Open(fs, filePath);
    if contentRead.None? {
      return None;
    }
    var content := contentRead.value;
    var f := new BinaryReader(content);
    var chunk := f.Read(chunkSize);
    while chunk != []
      invariant f.data == content && f.pos <= |content|
      invariant sha256.digestOf == h
      invariant sha256.fed + chunk == content[..f.pos]
      invariant chunk == [] ==> chunkSize == 0 || f.pos == |content|
      invariant chunkSize == 0 ==> f.pos == 0
      decreases |content| - f.pos + |chunk|
    {
      sha256.Update(chunk);
      chunk := f.Read(chunkSize);
    }
    assert chunkSize != 0 ==> sha256.fed == content;
    var d := sha256.HexDigest();
    return Some(d);
  }

  /** `str.rfind('.')`: the index of the last dot, or -1. */
  function LastDot(s: string): (i: int)
    ensures -1 <= i < |s|
    ensures i >= 0 ==> s[i] == '.'
    ensures forall j :: i < j < |s| ==> s[j] != '.'
  {
    if |s| == 0 then -1
    else if s[|s| - 1] == '.' then |s| - 1
    else LastDot(s[..|s| - 1])
  }

  /** Whether `Path.suffix` is non-empty: the last dot is neither the first
      nor the last character of the name. */
  predicate HasSuffix(name: Name) {
    0 < LastDot(name) < |name| - 1
  }

  /** `Path.suffix`: from the last dot on, or empty. */
  function Suffix(name: Name): Name {
    if HasSuffix(name) then name[LastDot(name)..] else ""
  }

  /** `Path.stem`: the name without its suffix. */
  function Stem(name: Name): Name {
    if HasSuffix(name) then name[..LastDot(name)] else name
  }

  /** The stem and suffix split the name at its last dot: the suffix is empty
      or a dot followed by at least one dot-free character, and a name whose
      only dot comes first (`.hidden`) has no suffix. */
  lemma StemSuffixSplit(name: Name)
    ensures Stem(name) + Suffix(name) == name
    ensures Suffix(name) != "" ==>
      |Suffix(name)| >= 2 && Suffix(name)[0] == '.' && '.' !in Suffix(name)[1..] && Stem(name) != ""
    ensures |name| > 0 && name[0] == '.' && '.' !in name[1..] ==> Suffix(name) == "" && Stem(name) == name
  {
    if HasSuffix(name) {
      var i := LastDot(name);
      assert name[..i] + name[i..] == name;
      forall j | 0 <= j < |name[i..][1..]| ensures name[i..][1..][j] != '.' {
        assert name[i..][1..][j] == name[i + 1 + j];
      }
    }
  }

  /** A name made of a stem, a dot and a dot-free extension splits back into
      exactly that stem and suffix when both parts are non-empty. */
  lemma {:induction false} SplitNamedParts(stem: Name, ext: Name)
    requires stem != "" && ext != "" && '.' !in ext
    ensures LastDot(stem + "." + ext) == |stem|
    ensures Stem(stem + "." + ext) == stem && Suffix(stem + "." + ext) == "." + ext
  {
    LastDotOfDotFreeTail(stem + ".", ext);
    assert (stem + "." + ext)[..|stem|] == stem;
    assert (stem + "." + ext)[|stem|..] == "." + ext;
  }

  /** Appending dot-free text after a trailing dot keeps that dot the last. */
  lemma {:induction false} LastDotOfDotFreeTail(prefix: string, tail: string)
    requires |prefix| > 0 && prefix[|prefix| - 1] == '.' && '.' !in tail
    ensures LastDot(prefix + tail) == |prefix| - 1
    decreases |tail|
  {
    if tail == [] {
      assert prefix + tail == prefix;
    } else {
      var s := prefix + tail;
      assert s[|s| - 1] == tail[|tail| - 1];
      assert s[..|s| - 1] == prefix + tail[..|tail| - 1];
      LastDotOfDotFreeTail(prefix, tail[..|tail| - 1]);
    }
  }

  /** `f"{stem}_{counter}{suffix}"` */
  function NumberedName(stem: Name, counter: nat, suffix: Name): Name {
    stem + "_" + DecimalString(counter) + suffix
  }

  /** The `counter`-th numbered variant of `baseName` in `dir`. */
  function Candidate(dir: Dir, baseName: Name, counter: nat): Path {
    Path(dir, NumberedName(Stem(baseName), counter, Suffix(baseName)))
  }

  /** `p.exists()` returns `True`: something is at `p` and its `stat()`
      works. */
  predicate Taken(fs: FileSystem, p: Path) {
    Exists(fs, p) && !StatFault(fs, p)
  }

  /** The smallest counter in `k..MaxCounter` whose numbered name in `dir`
      is not reported taken (it is free, or its `exists()` raises), if there
      is one. */
  function FirstFreeCounter(fs: FileSystem, dir: Dir, stem: Name, suffix: Name, k: nat): (r: Option<nat>)
    requires 1 <= k
    decreases MaxCounter + 1 - k
    ensures r.Some? ==> k <= r.value <= MaxCounter
    ensures r.Some? ==> !Taken(fs, Path(dir, NumberedName(stem, r.value, suffix)))
    ensures forall j :: k <= j <= MaxCounter && (r.None? || j < r.value) ==>
      Taken(fs, Path(dir, NumberedName(stem, j, suffix)))
  {
    if k > MaxCounter then None
    else if !Taken(fs, Path(dir, NumberedName(stem, k, suffix))) then Some(k)
    else FirstFreeCounter(fs, dir, stem, suffix, k + 1)
  }

  /** `generate_unique_filename`'s `RuntimeError`, or the `OSError` one of
      its `exists()` calls re-raised. */
  datatype NamingError = NamingExhausted(dir: Dir, baseName: Name) | ExistsRaised(path: Path)

  /** What `generate_unique_filename` returns or raises. */
  function UniqueFilename(fs: FileSystem, dir: Dir, baseName: Name): (r: Result<Path, NamingError>)
    ensures !Exists(fs, Path(dir, baseName)) ==> r == Success(Path(dir, baseName))
    ensures StatFault(fs, Path(dir, baseName)) ==> r == Failure(ExistsRaised(Path(dir, baseName)))
    ensures r.Success? ==> r.value.dir == dir && !Exists(fs, r.value)
    ensures r.Success? && Exists(fs, Path(dir, baseName)) ==>
      exists k :: 1 <= k <= MaxCounter && r.value == Candidate(dir, baseName, k) &&
        forall j :: 1 <= j < k ==> Taken(fs, Candidate(dir, baseName, j))
    ensures (r.Failure? && r.error.NamingExhausted?) <==> (Taken(fs, Path(dir, baseName)) &&
      forall k :: 1 <= k <= MaxCounter ==> Taken(fs, Candidate(dir, baseName, k)))
    ensures r.Failure? && r.error.NamingExhausted? ==> r.error == NamingExhausted(dir, baseName)
    ensures r.Failure? && r.error.ExistsRaised? ==>
      StatFault(fs, r.error.path) &&
      (r.error.path == Path(dir, baseName) ||
       (Taken(fs, Path(dir, baseName)) &&
        exists k :: 1 <= k <= MaxCounter && r.error.path == Candidate(dir, baseName, k) &&
          forall j :: 1 <= j < k ==> Taken(fs, Candidate(dir, baseName, j))))
  {
    var base := Path(dir, baseName);
    if StatFault(fs, base) then Failure(ExistsRaised(base))
    else if !Exists(fs, base) then Success(base)
    else
      var stem, suffix := Stem(baseName), Suffix(baseName);
      match FirstFreeCounter(fs, dir, stem, suffix, 1)
      case None =>
        assert forall j :: 1 <= j <= MaxCounter ==> Taken(fs, Candidate(dir, baseName, j));
        Failure(NamingExhausted(dir, baseName))
      case Some(k) =>
        var candidate := Candidate(dir, baseName, k);
        assert forall j :: 1 <= j < k ==> Taken(fs, Candidate(dir, baseName, j));
        if StatFault(fs, candidate) then Failure(ExistsRaised(candidate)) else Success(candidate)
  }

  /** `generate_unique_filename`: tries the name itself, then counters
      1, 2, ... up to `MaxCounter`, and raises once all are taken; an
      `exists()` that raises ends the search with its error. */
  method GenerateUniqueFilename(fs: FileSystem, destinationDir: Dir, baseName: Name)
    returns (r: Result<Path, NamingError>)
    ensures r == UniqueFilename(fs, destinationDir, baseName)
  {
    var destinationPath := Path(destinationDir, baseName);
    var present := ExistsOrRaise(fs, destinationPath);
    if present.Failure? {
      return Failure(ExistsRaised(destinationPath));
    }
    if !present.value {
      return Success(destinationPath);
    }
    var stem := Stem(baseName);
    var suffix := Suffix(baseName);
    var counter: nat := 1;
    while true
      invariant 1 <= counter <= MaxCounter
      invariant FirstFreeCounter(fs, destinationDir, stem, suffix, counter)
             == FirstFreeCounter(fs, destinationDir, stem, suffix, 1)
      decreases MaxCounter - counter
    {
      var candidate := Path(destinationDir, NumberedName(stem, counter, suffix));
      var taken := ExistsOrRaise(fs, candidate);
      if taken.Failure? {
        return Failure(ExistsRaised(candidate));
      }
      if !taken.value {
        return Success(candidate);
      }
      counter := counter + 1;
      if counter > MaxCounter {
        return Failure(NamingExhausted(destinationDir, baseName));
      }
    }
  }

  /** `handle_collision`'s decision: move to `finalDestination`, or drop the
      source as a true duplicate. */
  datatype Resolution = Move(finalDestination: Path, reason: string) | Duplicate(reason: string)

  /** `handle_collision`: no collision, true duplicate (same name, same
      digest), or name collision (same name, different or unreadable digest),
      which is renamed to a free sibling; an `exists()` that raises on the
      destination propagates. */
  function HandleCollision(fs: FileSystem, destinationFile: Path, fileHash: Digest, h: HashFunction)
    : (r: Result<Resolution, NamingError>)
    ensures !Exists(fs, destinationFile) ==> r == Success(Move(destinationFile, "No collision"))
    ensures StatFault(fs, destinationFile) ==> r == Failure(ExistsRaised(destinationFile))
    ensures (r.Success? && r.value.Duplicate?) <==>
      (Taken(fs, destinationFile) && HashOf(fs, destinationFile, h) == Some(fileHash))
    ensures r.Success? && r.value.Move? ==>
      !Exists(fs, r.value.finalDestination) && r.value.finalDestination.dir == destinationFile.dir
    ensures r.Success? && r.value.Move? && Exists(fs, destinationFile) ==>
      UniqueFilename(fs, destinationFile.dir, destinationFile.name) == Success(r.value.finalDestination)
    ensures r.Failure? <==>
      (StatFault(fs, destinationFile) ||
       (Taken(fs, destinationFile) && HashOf(fs, destinationFile, h) != Some(fileHash) &&
        UniqueFilename(fs, destinationFile.dir, destinationFile.name).Failure?))
    ensures r.Failure? && !StatFault(fs, destinationFile) ==>
      UniqueFilename(fs, destinationFile.dir, destinationFile.name) == Failure(r.error)
  {
    match ExistsOrRaise(fs, destinationFile)
    case Failure(_) => Failure(ExistsRaised(destinationFile))
    case Success(false) => Success(Move(destinationFile, "No collision"))
    case Success(true) =>
      if HashOf(fs, destinationFile, h) == Some(fileHash) then
        Success(Duplicate("Duplicate: same content as existing file"))
      else
        match UniqueFilename(fs, destinationFile.dir, destinationFile.name)
        case Failure(e) => Failure(e)
        case Success(uniquePath) => Success(Move(uniquePath, "Name collision: renamed to " + uniquePath.name))
  }

  /** The name collision from the tests: `source.txt` taken by other content,
      `source_1.txt` free, so the source is renamed to `source_1.txt`. */
  lemma NameCollisionRenamesToFirstVariant(fs: FileSystem, dir: Dir, fileHash: Digest, h: HashFunction)
    requires Taken(fs, Path(dir, "source.txt"))
    requires HashOf(fs, Path(dir, "source.txt"), h) != Some(fileHash)
    requires !Exists(fs, Path(dir, "source_1.txt"))
    ensures HandleCollision(fs, Path(dir, "source.txt"), fileHash, h)
         == Success(Move(Path(dir, "source_1.txt"), "Name collision: renamed to source_1.txt"))
  {
    assert "source.txt" == "source" + "." + "txt";
    SplitNamedParts("source", "txt");
    assert NumberedName(Stem("source.txt"), 1, Suffix("source.txt")) == "source_1.txt";
    assert "Name collision: renamed to " + "source_1.txt" == "Name collision: renamed to source_1.txt";
  }

  /** `test.jpg`, then `test_1.jpg`, then `test_2.jpg`. */
  lemma SequentialNumbering(fs: FileSystem, dir: Dir)
    requires Taken(fs, Path(dir, "test.jpg")) && Taken(fs, Path(dir, "test_1.jpg"))
    requires !Exists(fs, Path(dir, "test_2.jpg"))
    ensures UniqueFilename(fs, dir, "test.jpg") == Success(Path(dir, "test_2.jpg"))
  {
    assert "test.jpg" == "test" + "." + "jpg";
    SplitNamedParts("test", "jpg");
    assert NumberedName(Stem("test.jpg"), 1, Suffix("test.jpg")) == "test_1.jpg";
    assert NumberedName(Stem("test.jpg"), 2, Suffix("test.jpg")) == "test_2.jpg";
  }

  /** A file `check_duplicate_in_date_folder` reports: a regular file, not
      the excluded path, whose digest equals `fileHash`. */
  predicate IsDuplicate(fs: FileSystem, q: Path, fileHash: Digest, exclude: Option<Path>, h: HashFunction) {
    IsFile(fs, q) && exclude != Some(q) && HashOf(fs, q, h) == Some(fileHash)
  }

  /** An entry at which `check_duplicate_in_date_folder`'s loop stops: its
      `is_file()` raises, or it is a duplicate. */
  predicate StopsScan(fs: FileSystem, q: Path, fileHash: Digest, exclude: Option<Path>, h: HashFunction) {
    StatFault(fs, q) || IsDuplicate(fs, q, fileHash, exclude, h)
  }

  /** The first index at or after `i` at whose entry of `folder` the scan
      stops. */
  function FirstStopIndex(fs: FileSystem, folder: Dir, names: seq<Name>, i: nat,
                          fileHash: Digest, exclude: Option<Path>, h: HashFunction): (r: Option<nat>)
    requires i <= |names|
    decreases |names| - i
    ensures r.Some? ==> i <= r.value < |names| && StopsScan(fs, Path(folder, names[r.value]), fileHash, exclude, h)
    ensures forall j :: i <= j < |names| && (r.None? || j < r.value) ==>
      !StopsScan(fs, Path(folder, names[j]), fileHash, exclude, h)
  {
    if i == |names| then None
    else if StopsScan(fs, Path(folder, names[i]), fileHash, exclude, h) then Some(i)
    else FirstStopIndex(fs, folder, names, i + 1, fileHash, exclude, h)
  }

  /** What `check_duplicate_in_date_folder` returns or raises, given the
      folder's entries in the order `iterdir()` yields them. */
  function DuplicateInFolder(fs: FileSystem, folder: Dir, names: seq<Name>,
                             fileHash: Digest, exclude: Option<Path>, h: HashFunction)
    : (r: Result<Option<Path>, OsError>)
    ensures !DirPathExists(fs, folder) ==> r == Success(None)
    ensures DirStatFault(fs, folder) ==> r == Failure(StatError)
    ensures r == Failure(NotADirectory) <==> folder !in fs.dirs && FileAt(fs, folder) && !DirStatFault(fs, folder)
    ensures r.Failure? ==> r.error == NotADirectory || r.error == StatError
    ensures r.Success? && r.value.Some? ==>
      var q := r.value.value;
      q.dir == folder && q.name in names && IsDuplicate(fs, q, fileHash, exclude, h) && !StatFault(fs, q)
  {
    if DirStatFault(fs, folder) then Failure(StatError)
    else if !DirPathExists(fs, folder) then Success(None)
    else if folder !in fs.dirs then Failure(NotADirectory)
    else match FirstStopIndex(fs, folder, names, 0, fileHash, exclude, h)
      case None => Success(None)
      case Some(k) =>
        if StatFault(fs, Path(folder, names[k])) then Failure(StatError) else Success(Some(Path(folder, names[k])))
  }

  /** Scanning an existing folder: it raises exactly when an entry whose
      `is_file()` raises comes before every duplicate; with a complete
      listing it finds nothing exactly when every regular file of the folder
      can be `stat`ed and none other than `exclude` has the digest; and what
      it finds is the first entry of the listing at which it stops. */
  lemma DuplicateInFolderComplete(fs: FileSystem, folder: Dir, names: seq<Name>,
                                  fileHash: Digest, exclude: Option<Path>, h: HashFunction)
    requires folder in fs.dirs && !FileAt(fs, folder)
    ensures DuplicateInFolder(fs, folder, names, fileHash, exclude, h) == Failure(StatError) <==>
      exists k :: 0 <= k < |names| && StatFault(fs, Path(folder, names[k])) &&
        forall j :: 0 <= j < k ==> !IsDuplicate(fs, Path(folder, names[j]), fileHash, exclude, h)
    ensures ListsDir(fs, folder, names) ==>
      (DuplicateInFolder(fs, folder, names, fileHash, exclude, h) == Success(None) <==>
       forall q :: q in fs.files && q.dir == folder ==> !StatFault(fs, q) && !IsDuplicate(fs, q, fileHash, exclude, h))
    ensures forall k :: (0 <= k < |names| && !StatFault(fs, Path(folder, names[k])) &&
                         IsDuplicate(fs, Path(folder, names[k]), fileHash, exclude, h) &&
                         forall j :: 0 <= j < k ==> !StopsScan(fs, Path(folder, names[j]), fileHash, exclude, h)) ==>
        DuplicateInFolder(fs, folder, names, fileHash, exclude, h) == Success(Some(Path(folder, names[k])))
  {
    var r := FirstStopIndex(fs, folder, names, 0, fileHash, exclude, h);
    if r.None? {
      if ListsDir(fs, folder, names) {
        forall q | q in fs.files && q.dir == folder
          ensures !StatFault(fs, q) && !IsDuplicate(fs, q, fileHash, exclude, h)
        {
          var j :| 0 <= j < |names| && names[j] == q.name;
          assert Path(folder, names[j]) == q;
        }
      }
    } else {
      var m := r.value;
      if StatFault(fs, Path(folder, names[m])) {
        assert forall j :: 0 <= j < m ==> !IsDuplicate(fs, Path(folder, names[j]), fileHash, exclude, h);
      } else {
        forall k | 0 <= k < |names| && StatFault(fs, Path(folder, names[k]))
          ensures exists j :: 0 <= j < k && IsDuplicate(fs, Path(folder, names[j]), fileHash, exclude, h)
        {
          assert m < k;
        }
      }
    }
  }

  /** `check_duplicate_in_date_folder`: scans the folder's entries in order,
      skipping non-files and the excluded path, and returns the first whose
      digest matches; an `exists()` or `is_file()` that raises propagates. */
  method CheckDuplicateInDateFolder(fs: FileSystem, dateFolder: Dir, fileHash: Digest,
                                    excludePath: Option<Path>, names: seq<Name>, h: HashFunction)
    returns (r: Result<Option<Path>, OsError>)
    ensures r == DuplicateInFolder(fs, dateFolder, names, fileHash, excludePath, h)
  {
    var folderExists := DirExistsOrRaise(fs, dateFolder);
    if folderExists.Failure? {
      return Failure(folderExists.error);
    }
    if !folderExists.value {
      return Success(None);
    }
    if dateFolder !in fs.dirs {
      return Failure(NotADirectory);
    }
    for i := 0 to |names|
      invariant FirstStopIndex(fs, dateFolder, names, i, fileHash, excludePath, h)
             == FirstStopIndex(fs, dateFolder, names, 0, fileHash, excludePath, h)
    {
      var filePath := Path(dateFolder, names[i]);
      var isFile := IsFileOrRaise(fs, filePath);
      if isFile.Failure? {
        return Failure(isFile.error);
      }
      if !isFile.value {
        continue;
      }
      if excludePath == Some(filePath) {
        continue;
      }
      var existingHash := CalculateFileHash(fs, filePath, DefaultChunkSize, h);
      if existingHash == Some(fileHash) {
        return Success(Some(filePath));
      }
    }
    return Success(None);
  }

  /** `find_existing_file_by_hash`: the same scan with nothing excluded. */
  method FindExistingFileByHash(fs: FileSystem, destinationDir: Dir, targetHash: Digest,
                                names: seq<Name>, h: HashFunction)
    returns (r: Result<Option<Path>, OsError>)
    ensures r == DuplicateInFolder(fs, destinationDir, names, targetHash, None, h)
    ensures r.Success? && r.value.Some? ==> HashOf(fs, r.value.value, h) == Some(targetHash)
  {
    r := CheckDuplicateInDateFolder(fs, destinationDir, targetHash, None, names, h);
  }
}
