/** The abstract disk the ingest pipeline works on: regular files keyed by
    (directory, name), plus the set of directories.  Only the behaviour of
    `pathlib`/`os`/`shutil` calls the pipeline makes is modelled: `exists()`,
    `is_file()`, `stat()`, `open()`, `mkdir(parents=True, exist_ok=True)`,
    `unlink()` and `shutil.move`. */
module FileSystem {
  import opened Wrappers

  type byte = b: int | 0 <= b < 256
  type Bytes = seq<byte>

  /** One path component; components never contain the separator. */
  type Name = string
  /** A directory as its list of components from the root. */
  type Dir = seq<Name>

  /** `destination_dir / name` */
  datatype Path = Path(dir: Dir, name: Name)

  /** A regular file: its bytes, its `st_mtime` in whole seconds, and whether
      `open()` and `stat()` on it succeed (a permission or I/O fault makes
      them raise `OSError`). */
  datatype FileNode = FileNode(content: Bytes, mtime: int, canOpen: bool, canStat: bool)

  datatype FileSystem = FileSystem(files: map<Path, FileNode>, dirs: set<Dir>)

  /** The `OSError`s the modelled calls can raise: the three structural
      ones, and the permission or I/O fault of a `stat()`. */
  datatype OsError = FileNotFound | FileExists | NotADirectory | StatError

  /** The directory that the path `p` would be if it named one. */
  function AsDir(p: Path): (d: Dir)
    ensures |d| == |p.dir| + 1 && d[..|p.dir|] == p.dir && d[|p.dir|] == p.name
  {
    p.dir + [p.name]
  }

  /** A regular file is at `p`. */
  predicate IsFile(fs: FileSystem, p: Path) {
    p in fs.files
  }

  /** A regular file or a directory is at `p`. */
  predicate Exists(fs: FileSystem, p: Path) {
    p in fs.files || AsDir(p) in fs.dirs
  }

  /** `stat()` on `p` raises an error other than "no such file": a regular
      file is there and its `stat()` faults.  `exists()` and `is_file()` are
      built on `stat()` and re-raise such an error. */
  predicate StatFault(fs: FileSystem, p: Path) {
    p in fs.files && !fs.files[p].canStat
  }

  /** `p.exists()`: a missing path gives `False`, a stat fault is re-raised. */
  function ExistsOrRaise(fs: FileSystem, p: Path): Result<bool, OsError> {
    if StatFault(fs, p) then Failure(StatError) else Success(Exists(fs, p))
  }

  /** `p.is_file()`: a missing path or a directory gives `False`, a stat
      fault is re-raised. */
  function IsFileOrRaise(fs: FileSystem, p: Path): Result<bool, OsError> {
    if StatFault(fs, p) then Failure(StatError) else Success(IsFile(fs, p))
  }

  /** True when the non-root directory path `d` is occupied by a regular file. */
  predicate FileAt(fs: FileSystem, d: Dir) {
    |d| > 0 && Path(d[..|d| - 1], d[|d| - 1]) in fs.files
  }

  /** Something is at the non-root directory path `d` (or `d` is a known
      directory). */
  predicate DirPathExists(fs: FileSystem, d: Dir) {
    d in fs.dirs || FileAt(fs, d)
  }

  /** `Path(d).exists()` raises: the path `d` is occupied by a regular file
      whose `stat()` faults. */
  predicate DirStatFault(fs: FileSystem, d: Dir) {
    |d| > 0 && StatFault(fs, Path(d[..|d| - 1], d[|d| - 1]))
  }

  /** `Path(d).exists()` for a directory path `d`. */
  function DirExistsOrRaise(fs: FileSystem, d: Dir): Result<bool, OsError> {
    if DirStatFault(fs, d) then Failure(StatError) else Success(DirPathExists(fs, d))
  }

  /** `p.stat().st_mtime`; `None` when `stat()` raises.  A directory has no
      modelled mtime, so its `stat()` counts as failing. */
  function Stat(fs: FileSystem, p: Path): (r: Option<int>)
    ensures r.Some? <==> p in fs.files && fs.files[p].canStat
    ensures r.Some? ==> r.value == fs.files[p].mtime
  {
    if p in fs.files && fs.files[p].canStat then Some(fs.files[p].mtime) else None
  }

  /** `p.stat().st_size`: the length of the content; `None` when `stat()`
      raises. */
  function StatSize(fs: FileSystem, p: Path): (r: Option<nat>)
    ensures r.Some? <==> Stat(fs, p).Some?
    ensures r.Some? ==> r.value == |fs.files[p].content|
  {
    if p in fs.files && fs.files[p].canStat then Some(|fs.files[p].content|) else None
  }

  /** The content `open(p, 'rb')` reads; `None` when `open()` raises
      (missing path, a directory, or an unreadable file). */
  function Open(fs: FileSystem, p: Path): (r: Option<Bytes>)
    ensures r.Some? <==> p in fs.files && fs.files[p].canOpen
    ensures r.Some? ==> r.value == fs.files[p].content
  {
    if p in fs.files && fs.files[p].canOpen then Some(fs.files[p].content) else None
  }

  /** Every ancestor of `d`, `d` included. */
  function Ancestors(d: Dir): (r: set<Dir>)
    ensures d in r && [] in r
    ensures forall a :: a in r ==> |a| <= |d| && a == d[..|a|]
  {
    assert d == d[..|d|];
    assert [] == d[..0];
    set k | 0 <= k <= |d| :: d[..k]
  }

  /** `Path(d).mkdir(parents=True, exist_ok=True)`: creates `d` and its missing
      ancestors, and fails when `d` or one of its ancestors is a regular file. */
  function MakeDirs(fs: FileSystem, d: Dir): (r: Result<FileSystem, OsError>)
    ensures r.Failure? <==> exists k :: 1 <= k <= |d| && FileAt(fs, d[..k])
    ensures r.Success? ==> r.value.files == fs.files && d in r.value.dirs
    ensures r.Success? ==> r.value.dirs == fs.dirs + Ancestors(d)
  {
    if exists k :: 1 <= k <= |d| && FileAt(fs, d[..k]) then Failure(FileExists)
    else Success(fs.(dirs := fs.dirs + Ancestors(d)))
  }

  /** `p.unlink()` */
  function UnlinkFile(fs: FileSystem, p: Path): (r: Result<FileSystem, OsError>)
    ensures r.Success? <==> p in fs.files
    ensures r.Success? ==> r.value.files == fs.files - {p} && r.value.dirs == fs.dirs
  {
    if p in fs.files then Success(fs.(files := fs.files - {p})) else Failure(FileNotFound)
  }

  /** `shutil.move(src, dst)` for a regular file, as one atomic step: a
      destination that is a directory receives the file under its own name
      (refused if that name is taken); otherwise the file is renamed to `dst`,
      replacing a regular file already there, as `os.rename` does. */
  function MoveFile(fs: FileSystem, src: Path, dst: Path): (r: Result<FileSystem, OsError>)
    ensures r.Success? ==> src in fs.files && r.value.dirs == fs.dirs
    ensures r.Success? && !Exists(fs, dst) ==>
      r.value.files == (fs.files - {src})[dst := fs.files[src]]
  {
    if src !in fs.files then Failure(FileNotFound)
    else if AsDir(dst) in fs.dirs then
      var inner := Path(AsDir(dst), src.name);
      if Exists(fs, inner) then Failure(FileExists)
      else Success(fs.(files := (fs.files - {src})[inner := fs.files[src]]))
    else if dst.dir !in fs.dirs then Failure(NotADirectory)
    else Success(fs.(files := (fs.files - {src})[dst := fs.files[src]]))
  }

  /** `names` holds (at least) every regular file of directory `d`, as
      `d.iterdir()` yields them. */
  predicate ListsDir(fs: FileSystem, d: Dir, names: seq<Name>) {
    forall q :: q in fs.files && q.dir == d ==> q.name in names
  }

  /** The operating system's directory listings cover every regular file. */
  predicate ListingComplete(fs: FileSystem, listing: Dir -> seq<Name>) {
    forall q :: q in fs.files ==> q.name in listing(q.dir)
  }

  lemma ListingCompleteListsDir(fs: FileSystem, listing: Dir -> seq<Name>, d: Dir)
    requires ListingComplete(fs, listing)
    ensures ListsDir(fs, d, listing(d))
  {
  }

  /** The disk as a mutable object, for the orchestrator's step-by-step
      effects. */
  class Disk {
    var state: FileSystem

    constructor (fs: FileSystem)
      ensures state == fs
    {
      state := fs;
    }

    method EnsureDirectoryExists(d: Dir) returns (ok: bool)
      modifies this
      ensures ok == MakeDirs(old(state), d).Success?
      ensures state == if ok then MakeDirs(old(state), d).value else old(state)
    {
      var r := MakeDirs(state, d);
      ok := r.Success?;
      if ok { state := r.value; }
    }

    method Unlink(p: Path) returns (ok: bool)
      modifies this
      ensures ok == (p in old(state).files)
      ensures state == if ok then UnlinkFile(old(state), p).value else old(state)
    {
      var r := UnlinkFile(state, p);
      ok := r.Success?;
      if ok { state := r.value; }
    }

    method Move(src: Path, dst: Path) returns (ok: bool)
      modifies this
      ensures ok == MoveFile(old(state), src, dst).Success?
      ensures state == if ok then MoveFile(old(state), src, dst).value else old(state)
    {
      var r := MoveFile(state, src, dst);
      ok := r.Success?;
      if ok { state := r.value; }
    }
  }
}
