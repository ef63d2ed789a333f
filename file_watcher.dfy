/** The inbox watcher and its stability tracker
    (Src/Librarian/file_watcher.py). */
module FileWatcher {
  import opened Wrappers
  import opened FileSystem

  // ---------------------------------------------------------------------
  // `pending_files`: an insertion-ordered dict from path to mtime

  predicate Distinct(s: seq<Path>) {
    forall i, j :: 0 <= i < j < |s| ==> s[i] != s[j]
  }

  lemma DistinctPrefix(s: seq<Path>, n: nat)
    requires Distinct(s) && n <= |s|
    ensures Distinct(s[..n])
  {
  }

  lemma DistinctSnoc(s: seq<Path>, x: Path)
    requires Distinct(s) && x !in s
    ensures Distinct(s + [x])
  {
  }

  lemma DistinctCons(x: Path, s: seq<Path>)
    requires Distinct(s) && x !in s
    ensures Distinct([x] + s)
  {
  }

  /** `s` without `k`. */
  function Remove(s: seq<Path>, k: Path): seq<Path> {
    if s == [] then [] else (if s[0] == k then [] else [s[0]]) + Remove(s[1..], k)
  }

  /** Removing `k` keeps every other element and no more, keeps a sequence
      free of duplicates, and changes nothing when `k` is absent. */
  lemma {:induction false} RemoveMembers(s: seq<Path>, k: Path)
    ensures forall x :: x in Remove(s, k) <==> x in s && x != k
    ensures Distinct(s) ==> Distinct(Remove(s, k))
    ensures k !in s ==> Remove(s, k) == s
    decreases |s|
  {
    if s != [] {
      RemoveMembers(s[1..], k);
      assert s == [s[0]] + s[1..];
      if Distinct(s) {
        DistinctPrefix(s[1..], |s| - 1);
        assert s[1..] == s[1..][..|s| - 1];
        assert s[0] !in s[1..];
        if s[0] != k {
          DistinctCons(s[0], Remove(s[1..], k));
        }
      }
    }
  }

  /** Removing a key that occurs once, between two stretches without it. */
  lemma {:induction false} RemoveSplit(a: seq<Path>, k: Path, b: seq<Path>)
    requires k !in a && k !in b
    ensures Remove(a + [k] + b, k) == a + b
    decreases |a|
  {
    var s := a + [k] + b;
    if a == [] {
      assert s[0] == k && s[1..] == b;
      RemoveMembers(b, k);
    } else {
      assert s[0] == a[0] && s[1..] == a[1..] + [k] + b;
      RemoveSplit(a[1..], k, b);
      assert [a[0]] + (a[1..] + b) == a + b;
    }
  }

  /** The two parts of a duplicate-free sequence are duplicate-free and
      share nothing. */
  lemma DistinctSplit(s: seq<Path>, i: nat)
    requires Distinct(s) && i <= |s|
    ensures Distinct(s[..i]) && Distinct(s[i..])
    ensures forall x :: x in s[..i] ==> x !in s[i..]
  {
    forall x | x in s[..i]
      ensures x !in s[i..]
    {
      var a :| 0 <= a < i && s[a] == x;
      assert forall b :: i <= b < |s| ==> s[b] != s[a];
    }
  }

  lemma DistinctAppend(a: seq<Path>, b: seq<Path>)
    requires Distinct(a) && Distinct(b)
    requires forall x :: x in a ==> x !in b
    ensures Distinct(a + b)
  {
    var s := a + b;
    forall i, j | 0 <= i < j < |s|
      ensures s[i] != s[j]
    {
      if i < |a| && j >= |a| {
        assert s[i] in a && s[j] == b[j - |a|];
      }
    }
  }

  /** The element at `i` of a duplicate-free sequence is not in its tail. */
  lemma DistinctAt(s: seq<Path>, i: nat)
    requires Distinct(s) && i < |s|
    ensures s[i..] == [s[i]] + s[i + 1..]
    ensures s[i] !in s[i + 1..]
  {
    assert s[i..] == [s[i]] + s[i + 1..];
  }

  lemma ElementsAppend(s: seq<Path>, x: Path)
    ensures (set k | k in s + [x]) == (set k | k in s) + {x}
  {
  }

  /** The dict as its keys in insertion order and its key-to-mtime map. */
  datatype Pending = Pending(order: seq<Path>, times: map<Path, int>)

  predicate WellFormed(d: Pending) {
    Distinct(d.order) && (forall k :: k in d.order ==> k in d.times) && (forall k :: k in d.times ==> k in d.order)
  }

  /** `pending_files[k] = v`: an existing key keeps its place, a new one goes
      last. */
  function Put(d: Pending, k: Path, v: int): Pending {
    Pending(if k in d.times then d.order else d.order + [k], d.times[k := v])
  }

  lemma PutWellFormed(d: Pending, k: Path, v: int)
    requires WellFormed(d)
    ensures WellFormed(Put(d, k, v))
  {
    if k !in d.times {
      DistinctSnoc(d.order, k);
    }
  }

  /** `pending_files.pop(k, None)` */
  function Pop(d: Pending, k: Path): Pending {
    Pending(Remove(d.order, k), d.times - {k})
  }

  // ---------------------------------------------------------------------
  // The stability check of one pending item

  /** `min_file_age` and `stability_delay`, in whole seconds. */
  datatype Thresholds = Thresholds(minFileAge: int, stabilityDelay: int)

  /** What one pass of the check loop does with one pending item. */
  datatype Verdict =
    | Vanished            // the path no longer exists: dropped
    | StatFailed          // `exists()` or `stat()` raised `OSError`: dropped
    | Retimed(mtime: int) // the file changed: its entry takes the new mtime
    | Promote             // unchanged and old enough: handed to the callback
    | Wait                // unchanged but too recent: left as it is

  function Check(fs: FileSystem, now: int, th: Thresholds, filePath: Path, lastMtime: int): Verdict {
    if !Exists(fs, filePath) then Vanished
    else match Stat(fs, filePath)
      case None => StatFailed
      case Some(currentMtime) =>
        if currentMtime != lastMtime then Retimed(currentMtime)
        else if now - currentMtime >= th.minFileAge && now - lastMtime >= th.stabilityDelay then Promote
        else Wait
  }

  /** A file is promoted exactly when its mtime is the recorded one and both
      thresholds have passed since that mtime: both delays are measured from
      the same modification time.  A changed mtime is never promoted in the
      same pass, and an entry is dropped exactly when `stat()` cannot be
      taken. */
  lemma PromoteExactly(fs: FileSystem, now: int, th: Thresholds, filePath: Path, lastMtime: int)
    ensures Check(fs, now, th, filePath, lastMtime) == Promote <==>
      Stat(fs, filePath) == Some(lastMtime) && now - lastMtime >= th.minFileAge &&
      now - lastMtime >= th.stabilityDelay
    ensures Check(fs, now, th, filePath, lastMtime).Retimed? <==>
      Stat(fs, filePath).Some? && Stat(fs, filePath) != Some(lastMtime)
    ensures Check(fs, now, th, filePath, lastMtime).Retimed? ==>
      Check(fs, now, th, filePath, lastMtime).mtime == Stat(fs, filePath).value
    ensures Check(fs, now, th, filePath, lastMtime) in {Vanished, StatFailed} <==> Stat(fs, filePath).None?
  {
  }

  /** Whether the item stays in `pending_files` after its check. */
  predicate Stays(v: Verdict) {
    v.Retimed? || v.Wait?
  }

  /** The verdict on each pending item; it depends only on the file system,
      the time and the item's own recorded mtime. */
  type Verdicts = map<Path, Verdict>

  /** The verdicts of one pass, taken on the snapshot before the loop
      changes the dict. */
  function VerdictsOf(fs: FileSystem, now: int, th: Thresholds, times: map<Path, int>): Verdicts {
    map k | k in times :: Check(fs, now, th, k, times[k])
  }

  /** The keys of `order` that stay, in order. */
  function KeptOrder(order: seq<Path>, vs: Verdicts): seq<Path>
    requires forall k :: k in order ==> k in vs
  {
    if order == [] then []
    else
      var last := order[|order| - 1];
      var prefix := KeptOrder(order[..|order| - 1], vs);
      if Stays(vs[last]) then prefix + [last] else prefix
  }

  /** The keys of `order` that are promoted, in order. */
  function PromotedOrder(order: seq<Path>, vs: Verdicts): seq<Path>
    requires forall k :: k in order ==> k in vs
  {
    if order == [] then []
    else
      var last := order[|order| - 1];
      var prefix := PromotedOrder(order[..|order| - 1], vs);
      if vs[last] == Promote then prefix + [last] else prefix
  }

  /** The kept keys are exactly those of `order` that stay, each once. */
  lemma {:induction false} KeptOrderMembers(order: seq<Path>, vs: Verdicts)
    requires forall k :: k in order ==> k in vs
    ensures forall k :: k in KeptOrder(order, vs) <==> k in order && Stays(vs[k])
    ensures Distinct(order) ==> Distinct(KeptOrder(order, vs))
    decreases |order|
  {
    if order != [] {
      var init := order[..|order| - 1];
      var last := order[|order| - 1];
      assert order == init + [last];
      KeptOrderMembers(init, vs);
      if Distinct(order) {
        DistinctPrefix(order, |order| - 1);
        if Stays(vs[last]) {
          DistinctSnoc(KeptOrder(init, vs), last);
        }
      }
    }
  }

  /** The promoted keys are exactly those of `order` whose verdict is
      `Promote`, each once. */
  lemma {:induction false} PromotedOrderMembers(order: seq<Path>, vs: Verdicts)
    requires forall k :: k in order ==> k in vs
    ensures forall k :: k in PromotedOrder(order, vs) <==> k in order && vs[k] == Promote
    ensures Distinct(order) ==> Distinct(PromotedOrder(order, vs))
    decreases |order|
  {
    if order != [] {
      var init := order[..|order| - 1];
      var last := order[|order| - 1];
      assert order == init + [last];
      PromotedOrderMembers(init, vs);
      if Distinct(order) {
        DistinctPrefix(order, |order| - 1);
        if vs[last] == Promote {
          DistinctSnoc(PromotedOrder(init, vs), last);
        }
      }
    }
  }

  /** The mtime an item that stays keeps: the new one when it changed. */
  function CheckedMtime(v: Verdict, lastMtime: int): int {
    if v.Retimed? then v.mtime else lastMtime
  }

  /** The mtimes left after the check of the items in `times`. */
  function CheckedTimes(times: map<Path, int>, vs: Verdicts): map<Path, int>
    requires times.Keys <= vs.Keys
  {
    map k | k in times && Stays(vs[k]) :: CheckedMtime(vs[k], times[k])
  }

  /** `pending_files` after one pass of the check loop. */
  function AfterCheck(fs: FileSystem, now: int, th: Thresholds, d: Pending): Pending
    requires WellFormed(d)
  {
    var vs := VerdictsOf(fs, now, th, d.times);
    Pending(KeptOrder(d.order, vs), CheckedTimes(d.times, vs))
  }

  /** The paths one pass hands to the callback, in dict order. */
  function Promoted(fs: FileSystem, now: int, th: Thresholds, d: Pending): seq<Path>
    requires WellFormed(d)
  {
    PromotedOrder(d.order, VerdictsOf(fs, now, th, d.times))
  }

  /** One pass hands each pending file whose verdict is `Promote` to the
      callback, once each.  Afterwards an item is pending exactly when its
      path can still be `stat`ed and it was not promoted; a changed mtime
      replaces the recorded one and an unchanged one is kept; the dict stays
      well formed. */
  lemma CheckPassEffect(fs: FileSystem, now: int, th: Thresholds, d: Pending)
    requires WellFormed(d)
    ensures Distinct(Promoted(fs, now, th, d))
    ensures forall k :: k in Promoted(fs, now, th, d) <==>
      k in d.times && Check(fs, now, th, k, d.times[k]) == Promote
    ensures forall k :: k in AfterCheck(fs, now, th, d).times <==>
      k in d.times && Stat(fs, k).Some? && k !in Promoted(fs, now, th, d)
    ensures forall k :: k in AfterCheck(fs, now, th, d).times ==>
      AfterCheck(fs, now, th, d).times[k] == Stat(fs, k).value
    ensures WellFormed(AfterCheck(fs, now, th, d))
  {
    var vs := VerdictsOf(fs, now, th, d.times);
    KeptOrderMembers(d.order, vs);
    PromotedOrderMembers(d.order, vs);
  }

  // ---------------------------------------------------------------------
  // The check loop, one item at a time

  /** What the check loop does to `pending_files` for one item. */
  function CheckOne(d: Pending, k: Path, v: Verdict): Pending {
    if !Stays(v) then Pop(d, k)
    else if v.Retimed? then Put(d, k, v.mtime)
    else d
  }

  /** The key order once the loop has visited the first `i` items of the
      snapshot `d`. */
  function PartialOrder(d: Pending, vs: Verdicts, i: nat): seq<Path>
    requires WellFormed(d) && d.times.Keys <= vs.Keys && i <= |d.order|
  {
    KeptOrder(d.order[..i], vs) + d.order[i..]
  }

  /** The mtime map once the loop has visited the first `i` items of the
      snapshot `d`. */
  function PartialTimes(d: Pending, vs: Verdicts, i: nat): map<Path, int>
    requires WellFormed(d) && d.times.Keys <= vs.Keys && i <= |d.order|
  {
    var visited := d.order[..i];
    map k | k in d.times && (k in visited ==> Stays(vs[k])) ::
      if k in visited then CheckedMtime(vs[k], d.times[k]) else d.times[k]
  }

  /** `pending_files` once the loop has visited the first `i` items of the
      snapshot `d`. */
  function PartialCheck(d: Pending, vs: Verdicts, i: nat): Pending
    requires WellFormed(d) && d.times.Keys <= vs.Keys && i <= |d.order|
  {
    Pending(PartialOrder(d, vs, i), PartialTimes(d, vs, i))
  }

  /** Before the loop, the state is the snapshot itself. */
  lemma PartialCheckStart(d: Pending, vs: Verdicts)
    requires WellFormed(d) && d.times.Keys <= vs.Keys
    ensures PartialCheck(d, vs, 0) == d
  {
    assert d.order[..0] == [] && d.order[0..] == d.order;
  }

  /** After the loop, the state is `AfterCheck` of the snapshot. */
  lemma PartialCheckEnd(fs: FileSystem, now: int, th: Thresholds, d: Pending)
    requires WellFormed(d)
    ensures PartialCheck(d, VerdictsOf(fs, now, th, d.times), |d.order|) == AfterCheck(fs, now, th, d)
  {
    assert d.order[..|d.order|] == d.order && d.order[|d.order|..] == [];
  }

  /** Facts about the position of item `i` in the snapshot. */
  lemma ItemAt(d: Pending, vs: Verdicts, i: nat)
    requires WellFormed(d) && d.times.Keys <= vs.Keys && i < |d.order|
    ensures d.order[..i + 1][..i] == d.order[..i]
    ensures forall q :: q in d.order[..i + 1] <==> q in d.order[..i] || q == d.order[i]
    ensures d.order[i] !in d.order[..i] && d.order[i] !in d.order[i + 1..]
    ensures d.order[i] !in KeptOrder(d.order[..i], vs)
    ensures PartialOrder(d, vs, i) == KeptOrder(d.order[..i], vs) + [d.order[i]] + d.order[i + 1..]
  {
    assert d.order[..i + 1] == d.order[..i] + [d.order[i]];
    DistinctSplit(d.order, i);
    DistinctAt(d.order, i);
    KeptOrderMembers(d.order[..i], vs);
  }

  /** Visiting item `i` takes the key order from its state after `i` items
      to its state after `i + 1`. */
  lemma CheckStepOrder(d: Pending, vs: Verdicts, i: nat)
    requires WellFormed(d) && d.times.Keys <= vs.Keys && i < |d.order|
    ensures CheckOne(PartialCheck(d, vs, i), d.order[i], vs[d.order[i]]).order == PartialOrder(d, vs, i + 1)
  {
    var k := d.order[i];
    var done := KeptOrder(d.order[..i], vs);
    var rest := d.order[i + 1..];
    ItemAt(d, vs, i);
    var p := PartialCheck(d, vs, i);
    assert p.order == done + [k] + rest;
    assert KeptOrder(d.order[..i + 1], vs) == if Stays(vs[k]) then done + [k] else done;
    assert PartialOrder(d, vs, i + 1) == KeptOrder(d.order[..i + 1], vs) + rest;
    if !Stays(vs[k]) {
      RemoveSplit(done, k, rest);
      assert CheckOne(p, k, vs[k]).order == Remove(p.order, k);
    } else {
      assert k in p.times;
      assert CheckOne(p, k, vs[k]).order == p.order;
    }
  }

  /** Visiting item `i` gives path `q` the entry it has after `i + 1` items. */
  lemma CheckStepTimesAt(d: Pending, vs: Verdicts, i: nat, q: Path)
    requires WellFormed(d) && d.times.Keys <= vs.Keys && i < |d.order|
    ensures var c := CheckOne(PartialCheck(d, vs, i), d.order[i], vs[d.order[i]]).times;
      (q in c <==> q in PartialTimes(d, vs, i + 1)) && (q in c ==> c[q] == PartialTimes(d, vs, i + 1)[q])
  {
    var k := d.order[i];
    var before := PartialTimes(d, vs, i);
    assert d.order[..i + 1] == d.order[..i] + [k];
    assert q in d.order[..i + 1] <==> q in d.order[..i] || q == k;
    if q == k {
      DistinctAt(d.order, i);
      assert k !in d.order[..i] && k in d.order[..i + 1];
      assert k in d.times && (k in before <==> true) && before[k] == d.times[k];
    }
  }

  /** Visiting item `i` takes the mtime map from its state after `i` items to
      its state after `i + 1`. */
  lemma CheckStepTimes(d: Pending, vs: Verdicts, i: nat)
    requires WellFormed(d) && d.times.Keys <= vs.Keys && i < |d.order|
    ensures CheckOne(PartialCheck(d, vs, i), d.order[i], vs[d.order[i]]).times == PartialTimes(d, vs, i + 1)
  {
    var after := PartialTimes(d, vs, i + 1);
    var c := CheckOne(PartialCheck(d, vs, i), d.order[i], vs[d.order[i]]).times;
    forall q
      ensures q in c <==> q in after
      ensures q in c ==> c[q] == after[q]
    {
      CheckStepTimesAt(d, vs, i, q);
    }
    assert c.Keys == after.Keys;
  }

  /** Visiting item `i` takes the loop from the state after `i` items to the
      state after `i + 1`, and adds the item to the promoted ones exactly
      when its verdict is `Promote`. */
  lemma CheckStep(d: Pending, vs: Verdicts, i: nat)
    requires WellFormed(d) && d.times.Keys <= vs.Keys && i < |d.order|
    ensures CheckOne(PartialCheck(d, vs, i), d.order[i], vs[d.order[i]]) == PartialCheck(d, vs, i + 1)
    ensures PromotedOrder(d.order[..i + 1], vs) ==
      PromotedOrder(d.order[..i], vs) + if vs[d.order[i]] == Promote then [d.order[i]] else []
  {
    CheckStepOrder(d, vs, i);
    CheckStepTimes(d, vs, i);
    assert d.order[..i + 1][..i] == d.order[..i] && d.order[..i + 1][i] == d.order[i];
  }

  /** `pending_files` after the loop body has run on each of `visited`, in
      turn, starting from `d`. */
  function Steps(d: Pending, vs: Verdicts, visited: seq<Path>): Pending
    requires forall k :: k in visited ==> k in vs
  {
    if visited == [] then d
    else
      var last := visited[|visited| - 1];
      CheckOne(Steps(d, vs, visited[..|visited| - 1]), last, vs[last])
  }

  /** One more turn of the loop over `s`. */
  lemma StepsPrefix(d: Pending, vs: Verdicts, s: seq<Path>, i: nat)
    requires forall q :: q in s ==> q in vs
    requires i < |s|
    ensures Steps(d, vs, s[..i + 1]) == CheckOne(Steps(d, vs, s[..i]), s[i], vs[s[i]])
    ensures PromotedOrder(s[..i + 1], vs) ==
      PromotedOrder(s[..i], vs) + if vs[s[i]] == Promote then [s[i]] else []
  {
    assert s[..i + 1][..i] == s[..i];
  }

  /** Running the loop body on the first `i` items of the snapshot reaches the
      closed form `PartialCheck`. */
  lemma {:induction false} StepsPartial(d: Pending, vs: Verdicts, i: nat)
    requires WellFormed(d) && d.times.Keys <= vs.Keys && i <= |d.order|
    ensures Steps(d, vs, d.order[..i]) == PartialCheck(d, vs, i)
  {
    if i == 0 {
      PartialCheckStart(d, vs);
    } else {
      StepsPartial(d, vs, i - 1);
      StepsPrefix(d, vs, d.order, i - 1);
      CheckStep(d, vs, i - 1);
    }
  }

  /** Part way through the loop the dict is well formed, and no visited
      promoted item is still pending. */
  lemma PartialCheckWellFormed(d: Pending, vs: Verdicts, i: nat)
    requires WellFormed(d) && d.times.Keys <= vs.Keys && i <= |d.order|
    ensures WellFormed(PartialCheck(d, vs, i))
    ensures forall k :: k in PartialTimes(d, vs, i) ==> k in d.times && k !in PromotedOrder(d.order[..i], vs)
  {
    var visited := d.order[..i];
    var kept := KeptOrder(visited, vs);
    KeptOrderMembers(visited, vs);
    PromotedOrderMembers(visited, vs);
    DistinctSplit(d.order, i);
    DistinctAppend(kept, d.order[i..]);
    assert d.order == visited + d.order[i..];
  }

  /** Running the loop body on the whole snapshot yields `AfterCheck`: a
      well-formed dict holding none of the promoted paths and no path that
      was not pending before. */
  lemma CheckLoopDone(fs: FileSystem, now: int, th: Thresholds, d: Pending)
    requires WellFormed(d)
    ensures var vs := VerdictsOf(fs, now, th, d.times);
      var r := Steps(d, vs, d.order[..|d.order|]);
      r == AfterCheck(fs, now, th, d) && WellFormed(r) &&
      PromotedOrder(d.order[..|d.order|], vs) == Promoted(fs, now, th, d) &&
      forall k :: k in r.times ==> k in d.times && k !in Promoted(fs, now, th, d)
  {
    var vs := VerdictsOf(fs, now, th, d.times);
    StepsPartial(d, vs, |d.order|);
    PartialCheckEnd(fs, now, th, d);
    PartialCheckWellFormed(d, vs, |d.order|);
    assert d.order[..|d.order|] == d.order;
  }

  // ---------------------------------------------------------------------
  // Registration

  /** The mtime `_register_file(filePath)` records, if any: only for an
      existing regular file that is not being processed and whose `stat()`
      succeeds. */
  function RegisteredMtime(fs: FileSystem, processing: set<Path>, filePath: Path): (r: Option<int>)
    ensures r.Some? <==> filePath in fs.files && filePath !in processing && fs.files[filePath].canStat
    ensures r.Some? ==> r.value == fs.files[filePath].mtime
  {
    if !Exists(fs, filePath) || !IsFile(fs, filePath) then None
    else if filePath in processing then None
    else Stat(fs, filePath)
  }

  /** `pending_files` after `_register_file(filePath)`. */
  function Register(fs: FileSystem, d: Pending, processing: set<Path>, filePath: Path): Pending {
    match RegisteredMtime(fs, processing, filePath)
    case None => d
    case Some(mtime) => Put(d, filePath, mtime)
  }

  /** Re-registering a file whose mtime has not changed changes nothing, not
      even the order of the dict; and registering touches no other path. */
  lemma RegisterIdempotent(fs: FileSystem, d: Pending, processing: set<Path>, filePath: Path)
    ensures Register(fs, Register(fs, d, processing, filePath), processing, filePath)
         == Register(fs, d, processing, filePath)
    ensures forall q :: q != filePath ==>
      (q in Register(fs, d, processing, filePath).times <==> q in d.times) &&
      (q in d.times ==> Register(fs, d, processing, filePath).times[q] == d.times[q])
  {
  }

  /** A file-system event as the handler sees it. */
  datatype FsEvent = FsEvent(isDirectory: bool, srcPath: Path, destPath: Path)

  /** The watcher's defaults, in seconds. */
  const DefaultThresholds := Thresholds(2, 5)

  /** `StableFileHandler`: the pending dict and the processing set. */
  class StableFileHandler {
    const thresholds: Thresholds
    /** The keys of `pending_files`, in insertion order. */
    var pendingOrder: seq<Path>
    var pendingFiles: map<Path, int>
    var processingFiles: set<Path>

    function State(): Pending
      reads this
    {
      Pending(pendingOrder, pendingFiles)
    }

    /** The dict is well formed and no path is both pending and being
        processed. */
    predicate Valid()
      reads this
    {
      WellFormed(State()) && forall k :: k in pendingFiles ==> k !in processingFiles
    }

    constructor (thresholds: Thresholds)
      ensures this.thresholds == thresholds
      ensures pendingOrder == [] && pendingFiles == map[] && processingFiles == {}
      ensures Valid()
    {
      this.thresholds := thresholds;
      pendingOrder := [];
      pendingFiles := map[];
      processingFiles := {};
    }

    /** `_register_file` */
    method RegisterFile(fs: FileSystem, filePath: Path)
      requires Valid()
      modifies this
      ensures Valid()
      ensures State() == Register(fs, old(State()), processingFiles, filePath)
      ensures processingFiles == old(processingFiles)
    {
      if !Exists(fs, filePath) || !IsFile(fs, filePath) {
        return;
      }
      if filePath in processingFiles {
        return;
      }
      var mtime := Stat(fs, filePath);
      if mtime.None? {
        return;
      }
      PutWellFormed(State(), filePath, mtime.value);
      if filePath !in pendingFiles {
        pendingOrder := pendingOrder + [filePath];
      }
      pendingFiles := pendingFiles[filePath := mtime.value];
    }

    /** `on_created`: a file event registers its source path. */
    method OnCreated(fs: FileSystem, event: FsEvent)
      requires Valid()
      modifies this
      ensures Valid() && processingFiles == old(processingFiles)
      ensures State() ==
        if event.isDirectory then old(State()) else Register(fs, old(State()), processingFiles, event.srcPath)
    {
      if event.isDirectory {
        return;
      }
      RegisterFile(fs, event.srcPath);
    }

    /** `on_modified`: a file event registers its source path. */
    method OnModified(fs: FileSystem, event: FsEvent)
      requires Valid()
      modifies this
      ensures Valid() && processingFiles == old(processingFiles)
      ensures State() ==
        if event.isDirectory then old(State()) else Register(fs, old(State()), processingFiles, event.srcPath)
    {
      if event.isDirectory {
        return;
      }
      RegisterFile(fs, event.srcPath);
    }

    /** `on_moved`: a file event registers the path it was moved to. */
    method OnMoved(fs: FileSystem, event: FsEvent)
      requires Valid()
      modifies this
      ensures Valid() && processingFiles == old(processingFiles)
      ensures State() ==
        if event.isDirectory then old(State()) else Register(fs, old(State()), processingFiles, event.destPath)
    {
      if event.isDirectory {
        return;
      }
      RegisterFile(fs, event.destPath);
    }

    /** The body of the check loop for one snapshot item `filePath` whose
        recorded mtime is `lastMtime`: drops, re-times or promotes it. */
    method CheckItem(now: int, fs: FileSystem, filePath: Path, lastMtime: int) returns (promoted: bool)
      modifies this
      ensures promoted == (Check(fs, now, thresholds, filePath, lastMtime) == Promote)
      ensures State() == CheckOne(old(State()), filePath, Check(fs, now, thresholds, filePath, lastMtime))
      ensures processingFiles == if promoted then old(processingFiles) + {filePath} else old(processingFiles)
    {
      promoted := false;
      if !Exists(fs, filePath) {
        pendingOrder := Remove(pendingOrder, filePath);
        pendingFiles := pendingFiles - {filePath};
        return;
      }
      var currentMtime := Stat(fs, filePath);
      if currentMtime.None? {
        pendingOrder := Remove(pendingOrder, filePath);
        pendingFiles := pendingFiles - {filePath};
        return;
      }
      if currentMtime.value != lastMtime {
        if filePath !in pendingFiles {
          pendingOrder := pendingOrder + [filePath];
        }
        pendingFiles := pendingFiles[filePath := currentMtime.value];
        return;
      }
      var timeSinceModification := now - currentMtime.value;
      if timeSinceModification >= thresholds.minFileAge && now - lastMtime >= thresholds.stabilityDelay {
        promoted := true;
        pendingOrder := Remove(pendingOrder, filePath);
        pendingFiles := pendingFiles - {filePath};
        processingFiles := processingFiles + {filePath};
      }
    }

    /** The first half of one pass of `_stability_check_loop`: visits a
        snapshot of the pending items in dict order, drops, re-times or
        promotes each, and moves the promoted paths into `processingFiles`. */
    method CheckPending(now: int, fs: FileSystem) returns (stableFiles: seq<Path>)
      requires Valid()
      modifies this
      ensures Valid()
      ensures stableFiles == Promoted(fs, now, thresholds, old(State()))
      ensures State() == AfterCheck(fs, now, thresholds, old(State()))
      ensures processingFiles == old(processingFiles) + set k | k in stableFiles
    {
      ghost var snapshot := State();
      ghost var vs := VerdictsOf(fs, now, thresholds, pendingFiles);
      var order := pendingOrder;
      var snapTimes := pendingFiles;
      stableFiles := [];
      for i := 0 to |order|
        invariant State() == Steps(snapshot, vs, order[..i])
        invariant stableFiles == PromotedOrder(order[..i], vs)
        invariant processingFiles == old(processingFiles) + set k | k in stableFiles
      {
        var filePath := order[i];
        StepsPrefix(snapshot, vs, order, i);
        var promoted := CheckItem(now, fs, filePath, snapTimes[filePath]);
        if promoted {
          ElementsAppend(stableFiles, filePath);
          stableFiles := stableFiles + [filePath];
        }
      }
      CheckLoopDone(fs, now, thresholds, snapshot);
    }

    /** The callback loop of one pass: calls the callback on each of
        `stableFiles` in turn (recorded in `invoked`) and, in its `finally`,
        takes the path out of `processingFiles` whether the callback raised
        or not. */
    method RunCallbacks(stableFiles: seq<Path>, ghost processing: set<Path>) returns (invoked: seq<Path>)
      requires Distinct(stableFiles)
      requires forall k :: k in stableFiles ==> k !in processing
      requires processingFiles == processing + set k | k in stableFiles
      modifies this
      ensures invoked == stableFiles
      ensures processingFiles == processing
      ensures pendingOrder == old(pendingOrder) && pendingFiles == old(pendingFiles)
    {
      invoked := [];
      for i := 0 to |stableFiles|
        invariant pendingOrder == old(pendingOrder) && pendingFiles == old(pendingFiles)
        invariant invoked == stableFiles[..i]
        invariant processingFiles == processing + set k | k in stableFiles[i..]
      {
        var filePath := stableFiles[i];
        invoked := invoked + [filePath];
        DistinctAt(stableFiles, i);
        processingFiles := processingFiles - {filePath};
      }
      assert stableFiles[..|stableFiles|] == stableFiles;
    }

    /** One full pass of `_stability_check_loop` at time `now`.  The callback
        is recorded: `invoked` lists the paths it is called with, once each,
        in dict order.  Whether it raises or not, each path then leaves
        `processingFiles`, which is therefore as it was before the pass. */
    method Tick(now: int, fs: FileSystem) returns (invoked: seq<Path>)
      requires Valid()
      modifies this
      ensures Valid()
      ensures invoked == Promoted(fs, now, thresholds, old(State()))
      ensures State() == AfterCheck(fs, now, thresholds, old(State()))
      ensures processingFiles == old(processingFiles)
    {
      ghost var before := State();
      var stableFiles := CheckPending(now, fs);
      CheckPassEffect(fs, now, thresholds, before);
      invoked := RunCallbacks(stableFiles, old(processingFiles));
    }
  }

  // ---------------------------------------------------------------------
  // The watcher

  /** True when `p` lies somewhere below the directory `root`. */
  predicate Below(p: Path, root: Dir) {
    |root| <= |p.dir| && p.dir[..|root|] == root
  }

  /** `pending_files` after registering each of `entries` in turn. */
  function RegisterAll(fs: FileSystem, d: Pending, processing: set<Path>, entries: seq<Path>): Pending {
    if entries == [] then d
    else Register(fs, RegisterAll(fs, d, processing, entries[..|entries| - 1]), processing, entries[|entries| - 1])
  }

  /** After registering a listing, every qualifying regular file of it is
      pending under its current mtime, and paths outside it are untouched. */
  lemma {:induction false} RegisterAllEffect(fs: FileSystem, d: Pending, processing: set<Path>, entries: seq<Path>)
    ensures var r := RegisterAll(fs, d, processing, entries);
      (forall q :: q in entries && RegisteredMtime(fs, processing, q).Some? ==>
         q in r.times && r.times[q] == fs.files[q].mtime) &&
      (forall q :: q !in entries ==> (q in r.times <==> q in d.times) && (q in d.times ==> r.times[q] == d.times[q]))
  {
    if entries != [] {
      var init := entries[..|entries| - 1];
      RegisterAllEffect(fs, d, processing, init);
      assert entries == init + [entries[|entries| - 1]];
    }
  }

  /** How far `process_existing_files` gets through `entries`: the index of
      the first entry whose `is_file()` raises, or the whole listing. */
  function ScanEnd(fs: FileSystem, entries: seq<Path>): (n: nat)
    ensures n <= |entries|
    ensures forall i :: 0 <= i < n ==> !StatFault(fs, entries[i])
    ensures n < |entries| ==> StatFault(fs, entries[n])
  {
    if entries == [] then 0
    else if StatFault(fs, entries[0]) then 0
    else 1 + ScanEnd(fs, entries[1..])
  }

  /** `FileWatcher`: the inbox and the handler it starts. */
  class Watcher {
    const inboxPath: Dir
    const thresholds: Thresholds
    var eventHandler: StableFileHandler?

    constructor (inboxPath: Dir, thresholds: Thresholds)
      ensures this.inboxPath == inboxPath && this.thresholds == thresholds && eventHandler == null
    {
      this.inboxPath := inboxPath;
      this.thresholds := thresholds;
      eventHandler := null;
    }

    /** `start`: creates the inbox (a failing `mkdir` raises before the
        handler exists) and then a fresh, empty handler. */
    method Start(disk: Disk) returns (ok: bool)
      modifies this, disk
      ensures ok == MakeDirs(old(disk.state), inboxPath).Success?
      ensures disk.state == if ok then MakeDirs(old(disk.state), inboxPath).value else old(disk.state)
      ensures ok ==> eventHandler != null && fresh(eventHandler) && eventHandler.Valid()
      ensures ok ==> eventHandler.pendingOrder == [] && eventHandler.pendingFiles == map[]
      ensures ok ==> eventHandler.processingFiles == {} && eventHandler.thresholds == thresholds
      ensures !ok ==> eventHandler == old(eventHandler)
    {
      ok := disk.EnsureDirectoryExists(inboxPath);
      if !ok {
        return;
      }
      eventHandler := new StableFileHandler(thresholds);
    }

    /** `process_existing_files`: registers every regular file of the inbox
        listing `entries` (what `rglob("*")` yields) in turn; nothing when
        the inbox does not exist or the handler has not been started.  An
        `exists()` or `is_file()` that raises ends the call, with `raised`
        set, and the entries after it are not visited. */
    method ProcessExistingFiles(fs: FileSystem, entries: seq<Path>) returns (raised: bool)
      requires eventHandler != null ==> eventHandler.Valid()
      modifies eventHandler
      ensures raised <==>
        (DirStatFault(fs, inboxPath) || (DirPathExists(fs, inboxPath) && ScanEnd(fs, entries) < |entries|))
      ensures eventHandler == old(eventHandler)
      ensures eventHandler != null ==> eventHandler.Valid()
      ensures eventHandler != null ==> eventHandler.processingFiles == old(eventHandler.processingFiles)
      ensures eventHandler != null ==> (eventHandler.State() ==
        if DirStatFault(fs, inboxPath) || !DirPathExists(fs, inboxPath) then old(eventHandler.State())
        else RegisterAll(fs, old(eventHandler.State()), eventHandler.processingFiles,
                         entries[..ScanEnd(fs, entries)]))
    {
      var inboxExists := DirExistsOrRaise(fs, inboxPath);
      if inboxExists.Failure? {
        return true;
      }
      if !inboxExists.value {
        return false;
      }
      for i := 0 to |entries|
        invariant i <= ScanEnd(fs, entries)
        invariant eventHandler != null ==> eventHandler.Valid()
        invariant eventHandler != null ==> eventHandler.processingFiles == old(eventHandler.processingFiles)
        invariant eventHandler != null ==> (eventHandler.State() ==
          RegisterAll(fs, old(eventHandler.State()), eventHandler.processingFiles, entries[..i]))
      {
        assert entries[..i + 1][..i] == entries[..i];
        var filePath := entries[i];
        var isFile := IsFileOrRaise(fs, filePath);
        if isFile.Failure? {
          return true;
        }
        if isFile.value && eventHandler != null {
          eventHandler.RegisterFile(fs, filePath);
        }
      }
      assert entries[..|entries|] == entries;
      return false;
    }
  }

  /** With a complete listing of the inbox, `process_existing_files` leaves
      every regular file below the inbox that is not being processed and can
      be `stat`ed pending under its current mtime, provided no entry's
      `is_file()` raises; an entry whose `is_file()` raises ends the scan, and
      the paths that only come after it are left as they were, registered or
      not. */
  lemma ExistingFilesRegistered(fs: FileSystem, d: Pending, processing: set<Path>, inbox: Dir, entries: seq<Path>)
    requires forall q :: q in fs.files && Below(q, inbox) ==> q in entries
    ensures (forall q :: q in entries ==> !StatFault(fs, q)) ==>
      forall q :: q in fs.files && Below(q, inbox) && q !in processing && fs.files[q].canStat ==>
        var r := RegisterAll(fs, d, processing, entries[..ScanEnd(fs, entries)]);
        q in r.times && r.times[q] == fs.files[q].mtime
    ensures forall q :: q !in entries[..ScanEnd(fs, entries)] ==>
      var r := RegisterAll(fs, d, processing, entries[..ScanEnd(fs, entries)]);
      (q in r.times <==> q in d.times) && (q in d.times ==> r.times[q] == d.times[q])
  {
    var n := ScanEnd(fs, entries);
    RegisterAllEffect(fs, d, processing, entries[..n]);
    if forall q :: q in entries ==> !StatFault(fs, q) {
      assert n == |entries| && entries[..n] == entries;
    }
  }
}
