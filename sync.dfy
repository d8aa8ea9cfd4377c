/** `Sync(source, target, progress)`: make sure the target root exists,
    scan both trees, copy what is missing or whose hash differs, remove what
    the source no longer has, and report progress.  Progress values are the
    sequence the channel would receive; the map iteration orders Go leaves
    unspecified are the ghost `applied` and `removed` visit lists. */
module SyncEngine {
  import opened FileSystem
  import opened Scan

  /** The error `Sync` wraps, one constructor per `fmt.Errorf` site. */
  datatype SyncError =
    | TargetDirFailed(cause: IoError)
    | SourceScanFailed(scan: ScanError)
    | TargetScanFailed(scan: ScanError)
    | CreateDirFailed(path: Path, cause: IoError)
    | ParentDirFailed(path: Path, cause: IoError)
    | CopyFailed(rel: Path, cause: IoError)
    | RemoveFailed(path: Path, cause: IoError)

  /** One `relPath, sourceFile` pair of a `range` over a snapshot. */
  type Entry = (Path, FileInfo)

  /** The target has no entry at `rel`, or one with a different hash. */
  predicate NeedsSync(tgt: Snapshot, rel: Path, info: FileInfo) {
    rel !in tgt || info.hash != tgt[rel].hash
  }

  /** The source paths that have to be created or copied. */
  function SyncSet(src: Snapshot, tgt: Snapshot): set<Path> {
    set rel | rel in src && NeedsSync(tgt, rel, src[rel])
  }

  /** The target paths the source does not have. */
  function Orphans(src: Snapshot, tgt: Snapshot): set<Path> {
    tgt.Keys - src.Keys
  }

  /** Neither root lies inside the other. */
  predicate Disjoint(a: Path, b: Path) {
    !(a <= b) && !(b <= a)
  }

  function KeysOf(order: seq<Entry>): set<Path> {
    set i | 0 <= i < |order| :: order[i].0
  }

  /** `order` lists entries of `m` as a `range` over `m` yields them: each
      with its own value and no key twice. */
  predicate Visits(order: seq<Entry>, m: Snapshot) {
    && (forall i | 0 <= i < |order| :: order[i].0 in m && m[order[i].0] == order[i].1)
    && (forall i, j | 0 <= i < j < |order| :: order[i].0 != order[j].0)
  }

  /** `float64(k) / float64(n) * 100`, as an exact ratio. */
  function Percent(k: nat, n: nat): real
    requires n > 0
  {
    (k as real) / (n as real) * 100.0
  }

  /** The values sent after the first `k` applied entries. */
  function Progress(k: nat, n: nat): (p: seq<real>)
    requires n > 0
    ensures |p| == k
  {
    if k == 0 then [] else Progress(k - 1, n) + [Percent(k, n)]
  }

  datatype Step = Step(fs: FS, err: Option<SyncError>)

  /** One pass of the apply loop body on an entry of the sync set: a
      directory is made with its ancestors; a file gets its parent made and
      is then copied with the source's recorded modification time. */
  function ApplyEntry(fs: FS, source: Path, target: Path, rel: Path, info: FileInfo, now: int): (r: Step)
    ensures fs.Keys <= r.fs.Keys
    ensures forall q | q in fs && q != target + rel :: r.fs[q] == fs[q]
    ensures forall q | q in r.fs && q !in fs && q != target + rel :: r.fs[q].Dir?
    ensures forall q | q in r.fs && q !in fs :: q <= target + rel
    ensures forall q | q in fs && r.fs[q] != fs[q] :: fs[q].File? && r.fs[q].File?
    ensures Tree(fs) ==> Tree(r.fs)
    ensures r.err.None? && info.isDir ==> target + rel in r.fs && r.fs[target + rel].Dir?
    ensures r.err.None? && !info.isDir ==>
      && source + rel in fs && fs[source + rel].File? && fs[source + rel].readable
      && target + rel in r.fs
      && r.fs[target + rel] == File(if source + rel == target + rel then [] else fs[source + rel].content, info.modTime, true, true)
    ensures r.err.Some? && info.isDir ==> r.fs == fs && r.err.value.CreateDirFailed?
    ensures r.err.Some? && !info.isDir ==> r.err.value.ParentDirFailed? || r.err.value.CopyFailed?
  {
    var dst := target + rel;
    if info.isDir then
      match MkdirAll(fs, dst, now)
      case Err(e) => Step(fs, Some(CreateDirFailed(dst, e)))
      case Ok(made) => Step(made, None)
    else
      match MkdirAll(fs, Parent(dst), now)
      case Err(e) => Step(fs, Some(ParentDirFailed(dst, e)))
      case Ok(made) =>
        match CopyFile(made, source + rel, dst, info.modTime)
        case Err(e) => Step(made, Some(CopyFailed(rel, e)))
        case Ok(copied) => Step(copied, None)
  }

  /** What the apply loop has done after visiting `order`: the filesystem,
      how many entries it applied, and the error that stopped it. */
  datatype Outcome = Outcome(fs: FS, done: nat, err: Option<SyncError>)

  /** The apply loop over `order`: entries outside the sync set are
      skipped, and the first error ends the loop. */
  function ApplyAll(fs: FS, source: Path, target: Path, tgt: Snapshot, order: seq<Entry>, now: int): Outcome
  {
    if order == [] then Outcome(fs, 0, None)
    else
      var a := ApplyAll(fs, source, target, tgt, order[..|order| - 1], now);
      var (rel, info) := order[|order| - 1];
      if a.err.Some? || !NeedsSync(tgt, rel, info) then a
      else
        var s := ApplyEntry(a.fs, source, target, rel, info, now);
        Outcome(s.fs, if s.err.None? then a.done + 1 else a.done, s.err)
  }

  /** One pass of the removal loop body on a target path the source does
      not have: the whole subtree goes, or on failure nothing does. */
  function RemoveEntry(fs: FS, target: Path, rel: Path): (r: Step)
    ensures r.fs.Keys <= fs.Keys
    ensures forall q | q in r.fs :: r.fs[q] == fs[q]
    ensures r.err.None? ==> target + rel !in r.fs
    ensures r.err.None? && target + rel in fs ==> forall q | q in r.fs :: !(target + rel <= q)
    ensures r.err.None? ==> forall q | q in fs && !(target + rel <= q) :: q in r.fs
    ensures r.err.Some? ==> r.fs == fs && r.err.value.RemoveFailed? && r.err.value.path == target + rel
    ensures Tree(fs) ==> Tree(r.fs)
  {
    match RemoveAll(fs, target + rel)
    case Err(e) => Step(fs, Some(RemoveFailed(target + rel, e)))
    case Ok(rest) => Step(rest, None)
  }

  /** The removal loop over `order`: paths the source has are skipped, and
      the first error ends the loop. */
  function RemoveOrphans(fs: FS, target: Path, src: Snapshot, order: seq<Entry>): Step
  {
    if order == [] then Step(fs, None)
    else
      var r := RemoveOrphans(fs, target, src, order[..|order| - 1]);
      var rel := order[|order| - 1].0;
      if r.err.Some? || rel in src then r
      else RemoveEntry(r.fs, target, rel)
  }

  /** The state after the target root is made and both trees are scanned. */
  datatype Plan =
    | Failed(fs: FS, err: SyncError)
    | Scanned(fs: FS, src: Snapshot, tgt: Snapshot)

  ghost function Prepare(fs: FS, source: Path, target: Path, hash: Hasher, now: int): Plan {
    match MkdirAll(fs, target, now)
    case Err(e) => Failed(fs, TargetDirFailed(e))
    case Ok(fs1) =>
      match ScanSpec(fs1, source, hash)
      case Err(e) => Failed(fs1, SourceScanFailed(e))
      case Ok(src) =>
        match ScanSpec(fs1, target, hash)
        case Err(e) => Failed(fs1, TargetScanFailed(e))
        case Ok(tgt) => Scanned(fs1, src, tgt)
  }

  /** The final filesystem, the progress values sent, and the error. */
  datatype Run = Run(fs: FS, progress: seq<real>, err: Option<SyncError>)

  /** Whether the run goes past the two early returns. */
  predicate Applies(src: Snapshot, tgt: Snapshot) {
    |src| > 0 && |SyncSet(src, tgt)| > 0
  }

  /** What `Sync` does when its two loops visit the snapshots in the
      orders `applied` and `removed`. */
  ghost function SyncRun(fs: FS, source: Path, target: Path, hash: Hasher, now: int,
                         applied: seq<Entry>, removed: seq<Entry>): Run
  {
    match Prepare(fs, source, target, hash, now)
    case Failed(fs1, e) => Run(fs1, [], Some(e))
    case Scanned(fs1, src, tgt) =>
      if !Applies(src, tgt) then Run(fs1, [100.0], None)
      else Finish(fs1, source, target, src, tgt, applied, removed, now)
  }

  /** The part of a run after the early returns: the apply loop (one
      progress value per applied entry), then, if it finished, the removal
      loop and a final 100. */
  function Finish(fs1: FS, source: Path, target: Path, src: Snapshot, tgt: Snapshot,
                  applied: seq<Entry>, removed: seq<Entry>, now: int): Run
    requires Applies(src, tgt)
  {
    var n := |SyncSet(src, tgt)|;
    var a := ApplyAll(fs1, source, target, tgt, applied, now);
    var p := Progress(a.done, n);
    if a.err.Some? then Run(a.fs, p, a.err)
    else
      var r := RemoveOrphans(a.fs, target, src, removed);
      if r.err.Some? then Run(r.fs, p, r.err) else Run(r.fs, p + [100.0], None)
  }

  /** The visit orders are ones a run can take: lists of snapshot entries
      without repeats that are complete for each loop that finished, and no
      removal is visited before the apply loop has finished. */
  ghost predicate Planned(fs: FS, source: Path, target: Path, hash: Hasher, now: int,
                          applied: seq<Entry>, removed: seq<Entry>)
  {
    match Prepare(fs, source, target, hash, now)
    case Failed(_, _) => applied == [] && removed == []
    case Scanned(fs1, src, tgt) =>
      if !Applies(src, tgt) then applied == [] && removed == []
      else PlannedFrom(fs1, source, target, src, tgt, applied, removed, now)
  }

  ghost predicate PlannedFrom(fs1: FS, source: Path, target: Path, src: Snapshot, tgt: Snapshot,
                              applied: seq<Entry>, removed: seq<Entry>, now: int)
  {
    var a := ApplyAll(fs1, source, target, tgt, applied, now);
    && Visits(applied, src)
    && Visits(removed, tgt)
    && (a.err.None? ==> KeysOf(applied) == src.Keys)
    && (a.err.Some? ==> removed == [])
    && (a.err.None? && RemoveOrphans(a.fs, target, src, removed).err.None? ==> KeysOf(removed) == tgt.Keys)
  }

  lemma VisitsSnoc(order: seq<Entry>, m: Snapshot, e: Entry)
    requires Visits(order, m) && e.0 in m && m[e.0] == e.1 && e.0 !in KeysOf(order)
    ensures Visits(order + [e], m)
    ensures KeysOf(order + [e]) == KeysOf(order) + {e.0}
  {
    var o := order + [e];
    assert forall i | 0 <= i < |order| :: o[i] == order[i];
    assert forall i | 0 <= i < |order| :: order[i].0 in KeysOf(order);
    forall k | k in KeysOf(o)
      ensures k in KeysOf(order) + {e.0}
    {
      var i :| 0 <= i < |o| && o[i].0 == k;
      if i < |order| {
        assert order[i].0 in KeysOf(order);
      }
    }
    forall k | k in KeysOf(order) + {e.0}
      ensures k in KeysOf(o)
    {
      if k == e.0 {
        assert o[|order|].0 == k;
      } else {
        var i :| 0 <= i < |order| && order[i].0 == k;
        assert o[i].0 == k;
      }
    }
  }

  lemma ApplyAllSnoc(fs: FS, source: Path, target: Path, tgt: Snapshot, order: seq<Entry>, e: Entry, now: int)
    ensures ApplyAll(fs, source, target, tgt, order + [e], now)
         == var a := ApplyAll(fs, source, target, tgt, order, now);
            if a.err.Some? || !NeedsSync(tgt, e.0, e.1) then a
            else
              var s := ApplyEntry(a.fs, source, target, e.0, e.1, now);
              Outcome(s.fs, if s.err.None? then a.done + 1 else a.done, s.err)
  {
    assert (order + [e])[..|order|] == order;
  }

  lemma RemoveOrphansSnoc(fs: FS, target: Path, src: Snapshot, order: seq<Entry>, e: Entry)
    ensures RemoveOrphans(fs, target, src, order + [e])
         == var r := RemoveOrphans(fs, target, src, order);
            if r.err.Some? || e.0 in src then r
            else RemoveEntry(r.fs, target, e.0)
  {
    assert (order + [e])[..|order|] == order;
  }

  lemma CountStep(src: Snapshot, tgt: Snapshot, pending: set<Path>, rel: Path)
    requires rel in pending && pending <= src.Keys
    ensures |SyncSet(src, tgt) * pending|
         == |SyncSet(src, tgt) * (pending - {rel})| + if NeedsSync(tgt, rel, src[rel]) then 1 else 0
  {
    if NeedsSync(tgt, rel, src[rel]) {
      assert SyncSet(src, tgt) * pending == SyncSet(src, tgt) * (pending - {rel}) + {rel};
    } else {
      assert SyncSet(src, tgt) * pending == SyncSet(src, tgt) * (pending - {rel});
    }
  }

  /** The counting loop: `filesToSync` ends as the size of the sync set. */
  method CountToSync(src: Snapshot, tgt: Snapshot) returns (filesToSync: nat)
    ensures filesToSync == |SyncSet(src, tgt)|
  {
    filesToSync := 0;
    var pending := src.Keys;
    assert SyncSet(src, tgt) * pending == SyncSet(src, tgt);
    while pending != {}
      invariant pending <= src.Keys
      invariant filesToSync + |SyncSet(src, tgt) * pending| == |SyncSet(src, tgt)|
      decreases |pending|
    {
      var rel :| rel in pending;
      CountStep(src, tgt, pending, rel);
      if NeedsSync(tgt, rel, src[rel]) {
        filesToSync := filesToSync + 1;
      }
      pending := pending - {rel};
    }
    assert SyncSet(src, tgt) * pending == {};
  }

  ghost predicate ApplyInv(fs: FS, source: Path, target: Path, src: Snapshot, tgt: Snapshot, n: nat, now: int,
                           applied: seq<Entry>, pending: set<Path>, fs': FS, processed: nat, progress: seq<real>)
  {
    && pending <= src.Keys && KeysOf(applied) == src.Keys - pending
    && Visits(applied, src)
    && ApplyAll(fs, source, target, tgt, applied, now) == Outcome(fs', processed, None)
    && n > 0 && progress == Progress(processed, n)
  }

  /** An entry of the source snapshot that is in sync is visited and skipped. */
  lemma ApplyInvSkip(fs: FS, source: Path, target: Path, src: Snapshot, tgt: Snapshot, n: nat, now: int,
                     applied: seq<Entry>, pending: set<Path>, fs': FS, processed: nat, progress: seq<real>, rel: Path)
    requires ApplyInv(fs, source, target, src, tgt, n, now, applied, pending, fs', processed, progress)
    requires rel in pending && !NeedsSync(tgt, rel, src[rel])
    ensures ApplyInv(fs, source, target, src, tgt, n, now, applied + [(rel, src[rel])], pending - {rel}, fs', processed, progress)
  {
    VisitsSnoc(applied, src, (rel, src[rel]));
    ApplyAllSnoc(fs, source, target, tgt, applied, (rel, src[rel]), now);
  }

  /** An entry that needs syncing is applied: on success one more progress
      value is sent, on failure the loop's outcome is the failed step. */
  lemma ApplyInvStep(fs: FS, source: Path, target: Path, src: Snapshot, tgt: Snapshot, n: nat, now: int,
                     applied: seq<Entry>, pending: set<Path>, fs': FS, processed: nat, progress: seq<real>, rel: Path, s: Step)
    requires ApplyInv(fs, source, target, src, tgt, n, now, applied, pending, fs', processed, progress)
    requires rel in pending && NeedsSync(tgt, rel, src[rel])
    requires s == ApplyEntry(fs', source, target, rel, src[rel], now)
    ensures s.err.None? ==>
      ApplyInv(fs, source, target, src, tgt, n, now, applied + [(rel, src[rel])], pending - {rel}, s.fs, processed + 1, progress + [Percent(processed + 1, n)])
    ensures s.err.Some? ==>
      && Visits(applied + [(rel, src[rel])], src)
      && ApplyAll(fs, source, target, tgt, applied + [(rel, src[rel])], now) == Outcome(s.fs, processed, s.err)
  {
    VisitsSnoc(applied, src, (rel, src[rel]));
    ApplyAllSnoc(fs, source, target, tgt, applied, (rel, src[rel]), now);
  }

  /** The apply loop (and the progress it sends per applied entry). */
  method ApplyChanges(fs: FS, source: Path, target: Path, src: Snapshot, tgt: Snapshot, filesToSync: nat, now: int)
    returns (fs': FS, progress: seq<real>, err: Option<SyncError>, ghost applied: seq<Entry>)
    requires filesToSync > 0
    ensures Visits(applied, src)
    ensures err.None? ==> KeysOf(applied) == src.Keys
    ensures var a := ApplyAll(fs, source, target, tgt, applied, now);
      fs' == a.fs && err == a.err && progress == Progress(a.done, filesToSync)
  {
    fs', progress, err, applied := fs, [], None, [];
    var processedFiles := 0;
    var pending := src.Keys;
    while pending != {}
      invariant ApplyInv(fs, source, target, src, tgt, filesToSync, now, applied, pending, fs', processedFiles, progress) && err.None?
      decreases |pending|
    {
      var rel :| rel in pending;
      var sourceFile := src[rel];
      if NeedsSync(tgt, rel, sourceFile) {
        var step := ApplyEntry(fs', source, target, rel, sourceFile, now);
        ApplyInvStep(fs, source, target, src, tgt, filesToSync, now, applied, pending, fs', processedFiles, progress, rel, step);
        applied := applied + [(rel, sourceFile)];
        fs', err := step.fs, step.err;
        if err.Some? {
          return;
        }
        processedFiles := processedFiles + 1;
        progress := progress + [Percent(processedFiles, filesToSync)];
      } else {
        ApplyInvSkip(fs, source, target, src, tgt, filesToSync, now, applied, pending, fs', processedFiles, progress, rel);
        applied := applied + [(rel, sourceFile)];
      }
      pending := pending - {rel};
    }
  }

  ghost predicate RemoveInv(fs: FS, target: Path, src: Snapshot, tgt: Snapshot,
                            removed: seq<Entry>, pending: set<Path>, fs': FS)
  {
    && pending <= tgt.Keys && KeysOf(removed) == tgt.Keys - pending
    && Visits(removed, tgt)
    && RemoveOrphans(fs, target, src, removed) == Step(fs', None)
  }

  lemma RemoveInvNext(fs: FS, target: Path, src: Snapshot, tgt: Snapshot,
                      removed: seq<Entry>, pending: set<Path>, fs': FS, rel: Path)
    requires RemoveInv(fs, target, src, tgt, removed, pending, fs')
    requires rel in pending
    ensures var e, r := (rel, tgt[rel]), RemoveAll(fs', target + rel);
      && (rel in src ==> RemoveInv(fs, target, src, tgt, removed + [e], pending - {rel}, fs'))
      && (rel !in src && r.Ok? ==> RemoveInv(fs, target, src, tgt, removed + [e], pending - {rel}, r.value))
      && (rel !in src && r.Err? ==> Visits(removed + [e], tgt))
      && (rel !in src && r.Err? ==> RemoveOrphans(fs, target, src, removed + [e]) == Step(fs', Some(RemoveFailed(target + rel, r.error))))
  {
    var e := (rel, tgt[rel]);
    VisitsSnoc(removed, tgt, e);
    RemoveOrphansSnoc(fs, target, src, removed, e);
  }

  /** The removal loop over the target snapshot. */
  method RemoveOrphanPaths(fs: FS, target: Path, src: Snapshot, tgt: Snapshot)
    returns (fs': FS, err: Option<SyncError>, ghost removed: seq<Entry>)
    ensures Visits(removed, tgt)
    ensures err.None? ==> KeysOf(removed) == tgt.Keys
    ensures RemoveOrphans(fs, target, src, removed) == Step(fs', err)
  {
    fs', err, removed := fs, None, [];
    var pending := tgt.Keys;
    while pending != {}
      invariant RemoveInv(fs, target, src, tgt, removed, pending, fs') && err.None?
      decreases |pending|
    {
      var rel :| rel in pending;
      RemoveInvNext(fs, target, src, tgt, removed, pending, fs', rel);
      if rel !in src {
        var targetFilePath := target + rel;
        var gone := RemoveAll(fs', targetFilePath);
        if gone.Err? {
          err := Some(RemoveFailed(targetFilePath, gone.error));
          removed := removed + [(rel, tgt[rel])];
          return;
        }
        fs' := gone.value;
      }
      removed := removed + [(rel, tgt[rel])];
      pending := pending - {rel};
    }
  }

  /** `Sync(source, target, progressChan)`. */
  method Sync(fs: FS, source: Path, target: Path, hash: Hasher, now: int)
    returns (fs': FS, progress: seq<real>, err: Option<SyncError>, ghost applied: seq<Entry>, ghost removed: seq<Entry>)
    ensures Planned(fs, source, target, hash, now, applied, removed)
    ensures Run(fs', progress, err) == SyncRun(fs, source, target, hash, now, applied, removed)
    ensures MkdirAll(fs, target, now).Err? ==> fs' == fs && progress == [] && err == Some(TargetDirFailed(MkdirAll(fs, target, now).error))
  {
    applied, removed := [], [];
    var made := MkdirAll(fs, target, now);
    if made.Err? {
      return fs, [], Some(TargetDirFailed(made.error)), applied, removed;
    }
    fs' := made.value;
    var sourceFiles := ScanDirectory(fs', source, hash);
    if sourceFiles.Err? {
      return fs', [], Some(SourceScanFailed(sourceFiles.error)), applied, removed;
    }
    var targetFiles := ScanDirectory(fs', target, hash);
    if targetFiles.Err? {
      return fs', [], Some(TargetScanFailed(targetFiles.error)), applied, removed;
    }
    var src, tgt := sourceFiles.value, targetFiles.value;
    if |src| == 0 {
      return fs', [100.0], None, applied, removed;
    }
    var filesToSync := CountToSync(src, tgt);
    if filesToSync == 0 {
      return fs', [100.0], None, applied, removed;
    }
    fs', progress, err, applied := ApplyChanges(fs', source, target, src, tgt, filesToSync, now);
    if err.Some? {
      return;
    }
    fs', err, removed := RemoveOrphanPaths(fs', target, src, tgt);
    if err.Some? {
      return;
    }
    progress := progress + [100.0];
  }
}
