/** What a run of `Sync` guarantees, for every order in which its loops may
    visit the two snapshots. */
module SyncFacts {
  import opened FileSystem
  import opened Scan
  import opened SyncEngine

  lemma JoinInjective(root: Path, x: Path, y: Path)
    requires root + x == root + y
    ensures x == y
  {
    assert x == (root + x)[|root|..];
    assert y == (root + y)[|root|..];
  }

  lemma JoinPrefix(root: Path, x: Path, y: Path)
    requires root + x <= root + y
    ensures x <= y
  {
    assert x == (root + x)[|root|..];
    assert (root + y)[|root|..] == y;
    assert (root + y)[..|root| + |x|] == root + x;
    assert y[..|x|] == (root + y)[|root|..|root| + |x|];
  }

  /** A path below one of two disjoint roots is never below the other. */
  lemma DisjointJoin(a: Path, b: Path, x: Path)
    requires Disjoint(a, b)
    ensures !(b <= a + x)
  {
  }

  lemma VisitsInit(order: seq<Entry>, m: Snapshot)
    requires Visits(order, m) && order != []
    ensures var init, e := order[..|order| - 1], order[|order| - 1];
      && Visits(init, m) && e.0 in m && m[e.0] == e.1 && e.0 !in KeysOf(init)
      && KeysOf(order) == KeysOf(init) + {e.0}
  {
    var init, e := order[..|order| - 1], order[|order| - 1];
    assert order == init + [e];
    assert Visits(init, m);
    VisitsSnoc(init, m, e);
  }

  // ---------------------------------------------------------------------
  // Progress

  lemma SubsetSize<T>(a: set<T>, b: set<T>)
    requires a <= b
    ensures |a| <= |b|
  {
    assert b == a + (b - a);
  }

  lemma PercentBounds(i: nat, j: nat, n: nat)
    requires 0 < i < j <= n
    ensures 0.0 < Percent(i, n) < Percent(j, n) <= 100.0
  {
    var d := n as real;
    assert (i as real) / d > 0.0;
    assert (j as real) / d - (i as real) / d == ((j - i) as real) / d;
    assert ((j - i) as real) / d > 0.0;
    assert (j as real) / d <= 1.0;
  }

  lemma PercentAll(n: nat)
    requires n > 0
    ensures Percent(n, n) == 100.0
  {
  }

  /** The k-th value sent is k/n*100 of the way; the values rise strictly,
      stay in (0, 100], and reach 100 with the last applied entry. */
  lemma {:induction false} ProgressShape(k: nat, n: nat)
    requires 0 < n && k <= n
    ensures forall i | 0 <= i < k :: Progress(k, n)[i] == Percent(i + 1, n)
    ensures forall i, j | 0 <= i < j < k :: Progress(k, n)[i] < Progress(k, n)[j]
    ensures forall i | 0 <= i < k :: 0.0 < Progress(k, n)[i] <= 100.0
    ensures k == n ==> Progress(k, n)[k - 1] == 100.0
  {
    if k > 0 {
      ProgressShape(k - 1, n);
      var p := Progress(k, n);
      assert p == Progress(k - 1, n) + [Percent(k, n)];
      forall i | 0 <= i < k
        ensures p[i] == Percent(i + 1, n)
      {
        if i < k - 1 {
          assert p[i] == Progress(k - 1, n)[i];
        }
      }
      forall i, j | 0 <= i < j < k
        ensures p[i] < p[j]
      {
        PercentBounds(i + 1, j + 1, n);
      }
      forall i | 0 <= i < k
        ensures 0.0 < p[i] <= 100.0
      {
        if i + 1 < n {
          PercentBounds(i + 1, n, n);
        } else {
          PercentAll(n);
        }
      }
      if k == n {
        PercentAll(n);
      }
    }
  }

  // ---------------------------------------------------------------------
  // The apply loop

  /** The target paths the entries of `order` that need syncing are written to. */
  function Written(target: Path, tgt: Snapshot, order: seq<Entry>): set<Path> {
    set i | 0 <= i < |order| && NeedsSync(tgt, order[i].0, order[i].1) :: target + order[i].0
  }

  lemma WrittenSnoc(target: Path, tgt: Snapshot, order: seq<Entry>, e: Entry)
    ensures Written(target, tgt, order + [e])
         == Written(target, tgt, order) + if NeedsSync(tgt, e.0, e.1) then {target + e.0} else {}
  {
    var o := order + [e];
    assert forall i | 0 <= i < |order| :: o[i] == order[i];
    forall q | q in Written(target, tgt, o)
      ensures q in Written(target, tgt, order) + if NeedsSync(tgt, e.0, e.1) then {target + e.0} else {}
    {
      var i :| 0 <= i < |o| && NeedsSync(tgt, o[i].0, o[i].1) && q == target + o[i].0;
      if i < |order| {
        assert q in Written(target, tgt, order);
      }
    }
    if NeedsSync(tgt, e.0, e.1) {
      assert target + o[|order|].0 in Written(target, tgt, o);
    }
    forall q | q in Written(target, tgt, order)
      ensures q in Written(target, tgt, o)
    {
      var i :| 0 <= i < |order| && NeedsSync(tgt, order[i].0, order[i].1) && q == target + order[i].0;
      assert o[i] == order[i];
    }
  }

  /** Once an entry fails, the apply loop is over: later entries change
      nothing. */
  lemma {:induction false} ApplyAllStops(fs: FS, source: Path, target: Path, tgt: Snapshot, order: seq<Entry>, k: nat, now: int)
    requires k <= |order|
    requires ApplyAll(fs, source, target, tgt, order[..k], now).err.Some?
    ensures ApplyAll(fs, source, target, tgt, order, now) == ApplyAll(fs, source, target, tgt, order[..k], now)
    decreases |order|
  {
    if k < |order| {
      var init := order[..|order| - 1];
      assert init[..k] == order[..k];
      ApplyAllStops(fs, source, target, tgt, init, k, now);
    } else {
      assert order[..k] == order;
    }
  }

  /** The apply loop only adds entries, and leaves every entry it does not
      write to a synced path as it was; what it adds besides those paths
      are directories, and every path it adds lies on the way to a synced
      path. An entry it changes was a file and stays one, and a well-formed
      tree stays well formed. */
  lemma {:induction false} ApplyAllFrame(fs: FS, source: Path, target: Path, tgt: Snapshot, order: seq<Entry>, now: int)
    ensures var a := ApplyAll(fs, source, target, tgt, order, now);
      && fs.Keys <= a.fs.Keys
      && (forall q | q in fs && q !in Written(target, tgt, order) :: a.fs[q] == fs[q])
      && (forall q | q in a.fs && q !in fs && q !in Written(target, tgt, order) :: a.fs[q].Dir?)
      && (forall q | q in a.fs && q !in fs :: exists w | w in Written(target, tgt, order) :: q <= w)
      && (forall q | q in fs && a.fs[q] != fs[q] :: fs[q].File? && a.fs[q].File?)
      && (Tree(fs) ==> Tree(a.fs))
    decreases |order|
  {
    if order != [] {
      var init, e := order[..|order| - 1], order[|order| - 1];
      assert order == init + [e];
      ApplyAllFrame(fs, source, target, tgt, init, now);
      WrittenSnoc(target, tgt, init, e);
      ApplyAllSnoc(fs, source, target, tgt, init, e, now);
    }
  }

  /** Applying `e` to `fs` has put its result in `out`: a directory, or a
      copy of the source file carrying the recorded modification time. */
  ghost predicate Installed(fs: FS, source: Path, target: Path, e: Entry, out: FS) {
    && target + e.0 in out
    && (e.1.isDir ==> out[target + e.0].Dir?)
    && (!e.1.isDir ==>
          && source + e.0 in fs && fs[source + e.0].File?
          && out[target + e.0] == File(fs[source + e.0].content, e.1.modTime, true, true))
  }

  /** When the roots are disjoint and the loop finishes, every entry of the
      sync set it visited is in place; a later entry never overwrites an
      earlier one. */
  lemma {:induction false} ApplyAllInstalls(fs: FS, source: Path, target: Path, tgt: Snapshot, order: seq<Entry>, now: int)
    requires Disjoint(source, target)
    requires forall i, j | 0 <= i < j < |order| :: order[i].0 != order[j].0
    ensures var a := ApplyAll(fs, source, target, tgt, order, now);
      a.err.None? ==>
        forall i | 0 <= i < |order| && NeedsSync(tgt, order[i].0, order[i].1) :: Installed(fs, source, target, order[i], a.fs)
    decreases |order|
  {
    if order != [] {
      var init, e := order[..|order| - 1], order[|order| - 1];
      assert order == init + [e];
      ApplyAllInstalls(fs, source, target, tgt, init, now);
      ApplyAllFrame(fs, source, target, tgt, init, now);
      ApplyAllSnoc(fs, source, target, tgt, init, e, now);
      var a0 := ApplyAll(fs, source, target, tgt, init, now);
      var a := ApplyAll(fs, source, target, tgt, order, now);
      if a.err.None? {
        assert a0.err.None?;
        forall i | 0 <= i < |order| && NeedsSync(tgt, order[i].0, order[i].1)
          ensures Installed(fs, source, target, order[i], a.fs)
        {
          if i < |init| {
            assert order[i] == init[i];
            assert Installed(fs, source, target, init[i], a0.fs);
            if NeedsSync(tgt, e.0, e.1) {
              if target + init[i].0 == target + e.0 {
                JoinInjective(target, init[i].0, e.0);
                assert false;
              }
            }
          } else {
            assert order[i] == e;
            var q := source + e.0;
            DisjointJoin(source, target, e.0);
            assert q != target + e.0;
            if !e.1.isDir {
              assert q in a0.fs && a0.fs[q].File?;
              assert q !in Written(target, tgt, init);
            }
          }
        }
      }
    }
  }

  /** In the apply loop's count, each applied entry is one of the sync set,
      and a finished loop has applied all it visited. */
  lemma {:induction false} ApplyAllDone(fs: FS, source: Path, target: Path, src: Snapshot, tgt: Snapshot, order: seq<Entry>, now: int)
    requires Visits(order, src)
    ensures var a := ApplyAll(fs, source, target, tgt, order, now);
      && a.done <= |KeysOf(order) * SyncSet(src, tgt)|
      && (a.err.None? ==> a.done == |KeysOf(order) * SyncSet(src, tgt)|)
    decreases |order|
  {
    if order != [] {
      var init, e := order[..|order| - 1], order[|order| - 1];
      assert order == init + [e];
      VisitsInit(order, src);
      ApplyAllDone(fs, source, target, src, tgt, init, now);
      ApplyAllSnoc(fs, source, target, tgt, init, e, now);
      if NeedsSync(tgt, e.0, e.1) {
        assert KeysOf(order) * SyncSet(src, tgt) == KeysOf(init) * SyncSet(src, tgt) + {e.0};
      } else {
        assert KeysOf(order) * SyncSet(src, tgt) == KeysOf(init) * SyncSet(src, tgt);
      }
    }
  }

  // ---------------------------------------------------------------------
  // The removal loop

  /** `q` lies in the subtree of a target path the removal loop visited and
      the source does not have. */
  ghost predicate UnderRemoved(target: Path, src: Snapshot, order: seq<Entry>, q: Path) {
    exists i | 0 <= i < |order| :: order[i].0 !in src && target + order[i].0 <= q
  }

  /** The removal loop only deletes, leaves values alone, deletes nothing
      outside the subtrees of the orphans it visited, and when it finishes
      none of those orphans is left. */
  lemma {:induction false} RemoveOrphansEffect(fs: FS, target: Path, src: Snapshot, order: seq<Entry>)
    ensures var r := RemoveOrphans(fs, target, src, order);
      && r.fs.Keys <= fs.Keys
      && (forall q | q in r.fs :: r.fs[q] == fs[q])
      && (forall q | q in fs && !UnderRemoved(target, src, order, q) :: q in r.fs)
      && (r.err.None? ==> forall i | 0 <= i < |order| && order[i].0 !in src :: target + order[i].0 !in r.fs)
      && (Tree(fs) ==> Tree(r.fs))
    decreases |order|
  {
    if order != [] {
      var init, e := order[..|order| - 1], order[|order| - 1];
      assert order == init + [e];
      RemoveOrphansEffect(fs, target, src, init);
      RemoveOrphansSnoc(fs, target, src, init, e);
      var r0 := RemoveOrphans(fs, target, src, init);
      var r := RemoveOrphans(fs, target, src, order);
      forall q | q in fs && !UnderRemoved(target, src, order, q)
        ensures q in r.fs
      {
        if e.0 !in src {
          assert !(target + order[|order| - 1].0 <= q);
        }
      }
      if r.err.None? {
        assert r0.err.None?;
        forall i | 0 <= i < |order| && order[i].0 !in src
          ensures target + order[i].0 !in r.fs
        {
          if i < |init| {
            assert order[i] == init[i];
          }
        }
      }
    }
  }

  // ---------------------------------------------------------------------
  // Whole runs

  /** The early returns: one 100 is sent, the filesystem is left as the
      target-root `MkdirAll` made it, so every orphan survives. */
  lemma EarlyReturnKeepsOrphans(fs: FS, source: Path, target: Path, hash: Hasher, now: int,
                                applied: seq<Entry>, removed: seq<Entry>)
    requires Prepare(fs, source, target, hash, now).Scanned?
    requires !Applies(Prepare(fs, source, target, hash, now).src, Prepare(fs, source, target, hash, now).tgt)
    ensures var p, run := Prepare(fs, source, target, hash, now), SyncRun(fs, source, target, hash, now, applied, removed);
      && run == Run(p.fs, [100.0], None)
      && forall o | o in Orphans(p.src, p.tgt) :: target + o in run.fs
  {
    var p := Prepare(fs, source, target, hash, now);
    forall o | o in Orphans(p.src, p.tgt)
      ensures target + o in p.fs
    {
      SnapshotEntry(p.fs, target, hash, o);
    }
  }

  /** A visible source root that is a directory is in both snapshots as
      `[]` (Go's "."), is a directory on both sides, and is never synced. */
  lemma RootNeverSynced(fs: FS, source: Path, target: Path, hash: Hasher, now: int)
    requires Prepare(fs, source, target, hash, now).Scanned?
    requires var p := Prepare(fs, source, target, hash, now);
      source in p.fs && p.fs[source].Dir? && !Hidden(BaseName(source)) && !Hidden(BaseName(target))
    ensures var p := Prepare(fs, source, target, hash, now);
      && [] in p.src && p.src[[]].isDir
      && [] in p.tgt && p.tgt[[]].isDir
      && [] !in SyncSet(p.src, p.tgt)
  {
    var p := Prepare(fs, source, target, hash, now);
    EmptyIffHiddenRoot(p.fs, source, hash);
    EmptyIffHiddenRoot(p.fs, target, hash);
    SnapshotEntry(p.fs, source, hash, []);
    SnapshotEntry(p.fs, target, hash, []);
    assert source + [] == source && target + [] == target;
  }

  /** A directory that is already a directory at the same target path is
      never in the sync set. */
  lemma DirectoryNotResynced(fs: FS, source: Path, target: Path, hash: Hasher, now: int, rel: Path)
    requires Prepare(fs, source, target, hash, now).Scanned?
    requires var p := Prepare(fs, source, target, hash, now);
      rel in p.src && rel in p.tgt && p.src[rel].isDir && p.tgt[rel].isDir
    ensures rel !in SyncSet(Prepare(fs, source, target, hash, now).src, Prepare(fs, source, target, hash, now).tgt)
  {
    var p := Prepare(fs, source, target, hash, now);
    SnapshotEntry(p.fs, source, hash, rel);
    SnapshotEntry(p.fs, target, hash, rel);
  }

  /** Progress after the early returns: the k-th value is k/n*100 for a
      sync set of size n, the values rise strictly, stay in (0, 100], a
      run that succeeds sends n of them, the last being 100, then one more
      100, and a run that fails sends at most n. */
  lemma FinishProgress(fs1: FS, source: Path, target: Path, src: Snapshot, tgt: Snapshot,
                       applied: seq<Entry>, removed: seq<Entry>, now: int)
    requires Applies(src, tgt)
    requires PlannedFrom(fs1, source, target, src, tgt, applied, removed, now)
    ensures var run, n := Finish(fs1, source, target, src, tgt, applied, removed, now), |SyncSet(src, tgt)|;
      && (forall k | 0 <= k < |run.progress| && k < n :: run.progress[k] == Percent(k + 1, n))
      && (forall i, j | 0 <= i < j < |run.progress| && j < n :: run.progress[i] < run.progress[j])
      && (forall i, j | 0 <= i < j < |run.progress| :: run.progress[i] <= run.progress[j])
      && (forall i | 0 <= i < |run.progress| :: 0.0 < run.progress[i] <= 100.0)
      && (run.err.None? ==> |run.progress| == n + 1 && run.progress[n - 1] == 100.0 && run.progress[n] == 100.0)
      && (run.err.Some? ==> |run.progress| <= n)
  {
    var n := |SyncSet(src, tgt)|;
    var a := ApplyAll(fs1, source, target, tgt, applied, now);
    ApplyAllDone(fs1, source, target, src, tgt, applied, now);
    SubsetSize(KeysOf(applied) * SyncSet(src, tgt), SyncSet(src, tgt));
    ProgressShape(a.done, n);
    if a.err.None? {
      assert KeysOf(applied) * SyncSet(src, tgt) == SyncSet(src, tgt);
    }
  }

  /** Progress over a whole run: never decreasing, always in (0, 100], and
      a run that succeeds ends with 100. */
  lemma SyncProgress(fs: FS, source: Path, target: Path, hash: Hasher, now: int,
                     applied: seq<Entry>, removed: seq<Entry>)
    requires Planned(fs, source, target, hash, now, applied, removed)
    ensures var run := SyncRun(fs, source, target, hash, now, applied, removed);
      && (forall i, j | 0 <= i < j < |run.progress| :: run.progress[i] <= run.progress[j])
      && (forall i | 0 <= i < |run.progress| :: 0.0 < run.progress[i] <= 100.0)
      && (run.err.None? ==> |run.progress| > 0 && run.progress[|run.progress| - 1] == 100.0)
  {
    var p := Prepare(fs, source, target, hash, now);
    if p.Scanned? && Applies(p.src, p.tgt) {
      FinishProgress(p.fs, source, target, p.src, p.tgt, applied, removed, now);
    }
  }

  /** Removal starts only once every entry of the sync set is applied: an
      apply failure removes nothing and visits no orphan, and an apply loop
      that finishes has applied all n entries. */
  lemma RemovalsFollowApply(fs1: FS, source: Path, target: Path, src: Snapshot, tgt: Snapshot,
                            applied: seq<Entry>, removed: seq<Entry>, now: int)
    requires Applies(src, tgt)
    requires PlannedFrom(fs1, source, target, src, tgt, applied, removed, now)
    ensures var run, a := Finish(fs1, source, target, src, tgt, applied, removed, now), ApplyAll(fs1, source, target, tgt, applied, now);
      && (a.err.Some? ==> removed == [] && fs1.Keys <= run.fs.Keys && run.err == a.err)
      && (a.err.None? ==> a.done == |SyncSet(src, tgt)|)
  {
    ApplyAllFrame(fs1, source, target, tgt, applied, now);
    ApplyAllDone(fs1, source, target, src, tgt, applied, now);
    if ApplyAll(fs1, source, target, tgt, applied, now).err.None? {
      assert KeysOf(applied) * SyncSet(src, tgt) == SyncSet(src, tgt);
    }
  }

  /** A finished run has removed every orphan of the target snapshot. */
  lemma NoOrphanLeft(fs1: FS, source: Path, target: Path, src: Snapshot, tgt: Snapshot,
                     applied: seq<Entry>, removed: seq<Entry>, now: int, o: Path)
    requires Applies(src, tgt) && PlannedFrom(fs1, source, target, src, tgt, applied, removed, now)
    requires Finish(fs1, source, target, src, tgt, applied, removed, now).err.None?
    requires o in Orphans(src, tgt)
    ensures target + o !in Finish(fs1, source, target, src, tgt, applied, removed, now).fs
  {
    var a := ApplyAll(fs1, source, target, tgt, applied, now);
    RemoveOrphansEffect(a.fs, target, src, removed);
    assert o in KeysOf(removed);
    var i :| 0 <= i < |removed| && removed[i].0 == o;
  }

  /** After a run that gets past the early returns and succeeds, no target
      path the source snapshot lacks is left. */
  lemma NoOrphanRemains(fs: FS, source: Path, target: Path, hash: Hasher, now: int,
                        applied: seq<Entry>, removed: seq<Entry>)
    requires Planned(fs, source, target, hash, now, applied, removed)
    requires var p := Prepare(fs, source, target, hash, now); p.Scanned? && Applies(p.src, p.tgt)
    requires SyncRun(fs, source, target, hash, now, applied, removed).err.None?
    ensures var p, run := Prepare(fs, source, target, hash, now), SyncRun(fs, source, target, hash, now, applied, removed);
      forall o | o in Orphans(p.src, p.tgt) :: target + o !in run.fs
  {
    var p := Prepare(fs, source, target, hash, now);
    forall o | o in Orphans(p.src, p.tgt)
      ensures target + o !in Finish(p.fs, source, target, p.src, p.tgt, applied, removed, now).fs
    {
      NoOrphanLeft(p.fs, source, target, p.src, p.tgt, applied, removed, now, o);
    }
  }

  /** A target path at or below an entry of the source snapshot is never
      inside an orphan's subtree. */
  lemma NotUnderOrphan(fs1: FS, source: Path, target: Path, hash: Hasher,
                       src: Snapshot, removed: seq<Entry>, rel: Path)
    requires ScanSpec(fs1, source, hash) == Ok(src)
    requires rel in src
    ensures !UnderRemoved(target, src, removed, target + rel)
  {
    if UnderRemoved(target, src, removed, target + rel) {
      var i :| 0 <= i < |removed| && removed[i].0 !in src && target + removed[i].0 <= target + rel;
      var o := removed[i].0;
      JoinPrefix(target, o, rel);
      assert rel[..|o|] == o;
      SnapshotPrefixClosed(fs1, source, hash, rel, |o|);
      assert false;
    }
  }

  /** Whether `node` agrees with the snapshot entry `info`: same kind, and
      for a file, the same content hash. */
  ghost predicate Matches(node: Node, info: FileInfo, hash: Hasher) {
    && (info.isDir <==> node.Dir?)
    && (node.File? ==> hash(node.content) == info.hash)
  }

  /** With disjoint roots, a run that succeeds past the early returns has
      made every entry of the sync set: directories as directories, files
      as byte copies of the source with the source's recorded modification
      time. */
  lemma SyncedEntriesInstalled(fs: FS, source: Path, target: Path, hash: Hasher, now: int,
                               applied: seq<Entry>, removed: seq<Entry>)
    requires Disjoint(source, target)
    requires Planned(fs, source, target, hash, now, applied, removed)
    requires var p := Prepare(fs, source, target, hash, now); p.Scanned? && Applies(p.src, p.tgt)
    requires SyncRun(fs, source, target, hash, now, applied, removed).err.None?
    ensures var p, run := Prepare(fs, source, target, hash, now), SyncRun(fs, source, target, hash, now, applied, removed);
      forall rel | rel in SyncSet(p.src, p.tgt) ::
        && target + rel in run.fs
        && (p.src[rel].isDir ==> run.fs[target + rel].Dir?)
        && (!p.src[rel].isDir ==>
              source + rel in p.fs && run.fs[target + rel] == File(p.fs[source + rel].content, p.src[rel].modTime, true, true))
  {
    var p := Prepare(fs, source, target, hash, now);
    var a := ApplyAll(p.fs, source, target, p.tgt, applied, now);
    ApplyAllInstalls(p.fs, source, target, p.tgt, applied, now);
    RemoveOrphansEffect(a.fs, target, p.src, removed);
    forall rel | rel in SyncSet(p.src, p.tgt)
      ensures Installed(p.fs, source, target, (rel, p.src[rel]), a.fs)
      ensures target + rel in SyncRun(fs, source, target, hash, now, applied, removed).fs
    {
      assert rel in KeysOf(applied);
      var i :| 0 <= i < |applied| && applied[i].0 == rel;
      assert applied[i] == (rel, p.src[rel]);
      NotUnderOrphan(p.fs, source, target, hash, p.src, removed, rel);
    }
  }

  /** With disjoint roots, after any successful run every entry of the
      source snapshot has a counterpart of the same kind at the same target
      path, and a file's counterpart has the same content hash. */
  lemma TargetMirrorsSource(fs: FS, source: Path, target: Path, hash: Hasher, now: int,
                            applied: seq<Entry>, removed: seq<Entry>, rel: Path)
    requires Disjoint(source, target)
    requires Planned(fs, source, target, hash, now, applied, removed)
    requires Prepare(fs, source, target, hash, now).Scanned?
    requires SyncRun(fs, source, target, hash, now, applied, removed).err.None?
    requires rel in Prepare(fs, source, target, hash, now).src
    ensures var p, run := Prepare(fs, source, target, hash, now), SyncRun(fs, source, target, hash, now, applied, removed);
      target + rel in run.fs && Matches(run.fs[target + rel], p.src[rel], hash)
  {
    var p := Prepare(fs, source, target, hash, now);
    var run := SyncRun(fs, source, target, hash, now, applied, removed);
    SnapshotEntry(p.fs, source, hash, rel);
    if rel in SyncSet(p.src, p.tgt) {
      SyncedEntriesInstalled(fs, source, target, hash, now, applied, removed);
    } else {
      SnapshotEntry(p.fs, target, hash, rel);
      var q := target + rel;
      assert p.src[rel].hash == p.tgt[rel].hash;
      if Applies(p.src, p.tgt) {
        var a := ApplyAll(p.fs, source, target, p.tgt, applied, now);
        ApplyAllFrame(p.fs, source, target, p.tgt, applied, now);
        assert q !in Written(target, p.tgt, applied) by {
          if q in Written(target, p.tgt, applied) {
            var i :| 0 <= i < |applied| && NeedsSync(p.tgt, applied[i].0, applied[i].1) && q == target + applied[i].0;
            JoinInjective(target, rel, applied[i].0);
            assert false;
          }
        }
        RemoveOrphansEffect(a.fs, target, p.src, removed);
        NotUnderOrphan(p.fs, source, target, hash, p.src, removed, rel);
      }
      assert run.fs[q] == p.fs[q];
    }
  }

  /** No removal reaches a path below a dot entry of a directory in the
      source snapshot: the orphan would have to be that directory or above
      it (and so in the source snapshot), or name the dot entry (which no
      snapshot holds). */
  lemma HiddenNotUnderOrphan(fs1: FS, source: Path, target: Path, hash: Hasher,
                             src: Snapshot, tgt: Snapshot, removed: seq<Entry>, rel: Path, h: Name, q: Path)
    requires ScanSpec(fs1, source, hash) == Ok(src) && ScanSpec(fs1, target, hash) == Ok(tgt)
    requires Visits(removed, tgt)
    requires rel in src && Hidden(h) && target + rel + [h] <= q
    ensures !UnderRemoved(target, src, removed, q)
  {
    if UnderRemoved(target, src, removed, q) {
      var i :| 0 <= i < |removed| && removed[i].0 !in src && target + removed[i].0 <= q;
      var o := removed[i].0;
      PrefixCases(target, rel + [h], o, q);
      SnocOnPath(rel, h, o);
      assert o in tgt;
      if |o| <= |rel| {
        SnapshotPrefixClosed(fs1, source, hash, rel, |o|);
      } else {
        SnapshotHasNoHiddenNames(fs1, target, hash, o);
      }
      assert false;
    }
  }

  /** A path `o` that agrees with `rel + [h]` on their common length is a
      prefix of `rel`, or has `h` right after `rel`. */
  lemma SnocOnPath(rel: Path, h: Name, o: Path)
    requires |o| <= |rel| + 1 ==> (rel + [h])[..|o|] == o
    requires |o| > |rel| + 1 ==> o[..|rel| + 1] == rel + [h]
    ensures |o| <= |rel| ==> rel[..|o|] == o
    ensures |o| > |rel| ==> o[|rel|] == h
  {
    if |o| <= |rel| {
      assert (rel + [h])[..|o|] == rel[..|o|];
    } else if |o| == |rel| + 1 {
      assert o[|rel|] == (rel + [h])[|rel|];
    } else {
      assert o[|rel|] == o[..|rel| + 1][|rel|];
    }
  }

  /** Two extensions of `root` that both lie on `q` agree on their common
      length. */
  lemma PrefixCases(root: Path, a: Path, b: Path, q: Path)
    requires root + a <= q && root + b <= q
    ensures |b| <= |a| ==> a[..|b|] == b
    ensures |b| > |a| ==> b[..|a|] == a
  {
    var t := q[|root|..];
    assert q == root + t;
    JoinPrefix(root, a, t);
    JoinPrefix(root, b, t);
  }

  /** A dot entry in the target is never removed while the directory that
      holds it is in the source snapshot; at the top level that is every
      run whose source snapshot is not empty. */
  lemma HiddenTargetEntriesSurvive(fs: FS, source: Path, target: Path, hash: Hasher, now: int,
                                   applied: seq<Entry>, removed: seq<Entry>, rel: Path, h: Name, q: Path)
    requires Planned(fs, source, target, hash, now, applied, removed)
    requires Prepare(fs, source, target, hash, now).Scanned?
    requires var p := Prepare(fs, source, target, hash, now);
      rel in p.src && Hidden(h) && q in p.fs && target + rel + [h] <= q
    ensures q in SyncRun(fs, source, target, hash, now, applied, removed).fs
  {
    var p := Prepare(fs, source, target, hash, now);
    if Applies(p.src, p.tgt) {
      var a := ApplyAll(p.fs, source, target, p.tgt, applied, now);
      ApplyAllFrame(p.fs, source, target, p.tgt, applied, now);
      RemoveOrphansEffect(a.fs, target, p.src, removed);
      HiddenNotUnderOrphan(p.fs, source, target, hash, p.src, p.tgt, removed, rel, h, q);
    }
  }

  // ---------------------------------------------------------------------
  // Rescanning the target

  /** A target entry the apply loop added lies on the way to a synced
      source entry, so its path relative to the target is a source key. */
  lemma AddedKeyInSource(fs1: FS, source: Path, target: Path, hash: Hasher, src: Snapshot, tgt: Snapshot,
                         applied: seq<Entry>, now: int, rel: Path)
    requires ScanSpec(fs1, source, hash) == Ok(src) && Visits(applied, src)
    requires target + rel in ApplyAll(fs1, source, target, tgt, applied, now).fs && target + rel !in fs1
    ensures rel in src
  {
    ApplyAllFrame(fs1, source, target, tgt, applied, now);
    var w :| w in Written(target, tgt, applied) && target + rel <= w;
    var i :| 0 <= i < |applied| && NeedsSync(tgt, applied[i].0, applied[i].1) && w == target + applied[i].0;
    JoinPrefix(target, rel, applied[i].0);
    assert applied[i].0[..|rel|] == rel;
    SnapshotPrefixClosed(fs1, source, hash, applied[i].0, |rel|);
  }

  /** The loops of a run change no entry's kind: what they overwrite is a
      file and stays one, and what they delete is gone. */
  lemma FinishKeepsKinds(fs1: FS, source: Path, target: Path, src: Snapshot, tgt: Snapshot,
                         applied: seq<Entry>, removed: seq<Entry>, now: int)
    requires Applies(src, tgt)
    ensures var f := Finish(fs1, source, target, src, tgt, applied, removed, now).fs;
      && SameKinds(fs1, f)
      && (Tree(fs1) ==> Tree(f))
      && forall q | q in f && q !in fs1 :: q in ApplyAll(fs1, source, target, tgt, applied, now).fs
  {
    var a := ApplyAll(fs1, source, target, tgt, applied, now);
    ApplyAllFrame(fs1, source, target, tgt, applied, now);
    RemoveOrphansEffect(a.fs, target, src, removed);
  }

  /** A key of a rescan of the target after a finished run is a key of the
      source snapshot: an entry the target already had survives only when
      the source has it, and an entry the run added lies on the way to a
      synced source entry. */
  lemma RescanKeyInSource(fs1: FS, source: Path, target: Path, hash: Hasher, src: Snapshot, tgt: Snapshot,
                          applied: seq<Entry>, removed: seq<Entry>, now: int, rel: Path)
    requires Tree(fs1)
    requires ScanSpec(fs1, source, hash) == Ok(src) && ScanSpec(fs1, target, hash) == Ok(tgt)
    requires Applies(src, tgt) && PlannedFrom(fs1, source, target, src, tgt, applied, removed, now)
    requires Finish(fs1, source, target, src, tgt, applied, removed, now).err.None?
    requires Queued(Finish(fs1, source, target, src, tgt, applied, removed, now).fs, target, rel)
    ensures rel in src
  {
    var f := Finish(fs1, source, target, src, tgt, applied, removed, now).fs;
    FinishKeepsKinds(fs1, source, target, src, tgt, applied, removed, now);
    if target + rel in fs1 {
      QueuedBefore(fs1, f, target, rel);
      assert rel in tgt;
      if rel !in src {
        NoOrphanLeft(fs1, source, target, src, tgt, applied, removed, now, rel);
      }
    } else {
      AddedKeyInSource(fs1, source, target, hash, src, tgt, applied, now, rel);
    }
  }

  /** A source entry whose counterpart in a well-formed target tree matches
      it is in a clean rescan of the target, with the same kind and hash. */
  lemma MatchedEntryRescanned(fs1: FS, f: FS, source: Path, target: Path, hash: Hasher, src: Snapshot, rel: Path)
    requires Tree(f) && !Hidden(BaseName(target))
    requires ScanSpec(fs1, source, hash) == Ok(src) && ScanSpec(f, target, hash).Ok?
    requires rel in src && target + rel in f && Matches(f[target + rel], src[rel], hash)
    ensures var again := ScanSpec(f, target, hash).value;
      rel in again && again[rel].isDir == src[rel].isDir && again[rel].hash == src[rel].hash
  {
    SnapshotHasNoHiddenNames(fs1, source, hash, rel);
    VisibleIsQueued(f, target, rel);
    SnapshotEntry(fs1, source, hash, rel);
    SnapshotEntry(f, target, hash, rel);
  }

  /** Every key of a rescan of the target after a finished run is a key of
      the source snapshot. */
  lemma FinishRescanKeys(fs1: FS, source: Path, target: Path, hash: Hasher, src: Snapshot, tgt: Snapshot,
                         applied: seq<Entry>, removed: seq<Entry>, now: int)
    requires Tree(fs1)
    requires ScanSpec(fs1, source, hash) == Ok(src) && ScanSpec(fs1, target, hash) == Ok(tgt)
    requires Applies(src, tgt) && PlannedFrom(fs1, source, target, src, tgt, applied, removed, now)
    requires Finish(fs1, source, target, src, tgt, applied, removed, now).err.None?
    ensures var f := Finish(fs1, source, target, src, tgt, applied, removed, now).fs;
      forall rel | rel in Under(f, target) && Queued(f, target, rel) :: rel in src
  {
    var f := Finish(fs1, source, target, src, tgt, applied, removed, now).fs;
    forall rel | rel in Under(f, target) && Queued(f, target, rel)
      ensures rel in src
    {
      RescanKeyInSource(fs1, source, target, hash, src, tgt, applied, removed, now, rel);
    }
  }

  /** A clean rescan of a well-formed target whose root name is not hidden,
      in which every source entry has a matching counterpart and which
      queues nothing the source lacks, has the source snapshot's keys, kinds
      and hashes. */
  lemma RescanIsSource(fs1: FS, f: FS, source: Path, target: Path, hash: Hasher, src: Snapshot)
    requires Tree(f) && !Hidden(BaseName(target))
    requires ScanSpec(fs1, source, hash) == Ok(src) && ScanSpec(f, target, hash).Ok?
    requires forall rel | rel in src :: target + rel in f && Matches(f[target + rel], src[rel], hash)
    requires forall rel | rel in Under(f, target) && Queued(f, target, rel) :: rel in src
    ensures var again := ScanSpec(f, target, hash).value;
      && again.Keys == src.Keys
      && (forall rel | rel in again :: again[rel].isDir == src[rel].isDir && again[rel].hash == src[rel].hash)
      && SyncSet(src, again) == {}
  {
    var again := ScanSpec(f, target, hash).value;
    assert again == SnapshotOf(f, target, hash);
    forall rel | rel in src
      ensures rel in again && again[rel].isDir == src[rel].isDir && again[rel].hash == src[rel].hash
    {
      MatchedEntryRescanned(fs1, f, source, target, hash, src, rel);
    }
  }

  /** With disjoint roots and a target root whose name is not hidden, a
      successful run past the early returns leaves a target whose clean
      rescan agrees with the source snapshot: the same keys, and at each
      the same kind and the same hash, so a second run over the two finds
      nothing to sync. */
  lemma TargetRescanMatchesSource(fs: FS, source: Path, target: Path, hash: Hasher, now: int,
                                  applied: seq<Entry>, removed: seq<Entry>)
    requires Tree(fs) && Disjoint(source, target) && !Hidden(BaseName(target))
    requires Planned(fs, source, target, hash, now, applied, removed)
    requires var p := Prepare(fs, source, target, hash, now); p.Scanned? && Applies(p.src, p.tgt)
    requires var run := SyncRun(fs, source, target, hash, now, applied, removed);
      run.err.None? && ScanSpec(run.fs, target, hash).Ok?
    ensures var p, run := Prepare(fs, source, target, hash, now), SyncRun(fs, source, target, hash, now, applied, removed);
      var again := ScanSpec(run.fs, target, hash).value;
      && again.Keys == p.src.Keys
      && (forall rel | rel in again :: again[rel].isDir == p.src[rel].isDir && again[rel].hash == p.src[rel].hash)
      && SyncSet(p.src, again) == {}
  {
    var p := Prepare(fs, source, target, hash, now);
    var run := SyncRun(fs, source, target, hash, now, applied, removed);
    assert run == Finish(p.fs, source, target, p.src, p.tgt, applied, removed, now);
    forall rel | rel in p.src
      ensures target + rel in run.fs && Matches(run.fs[target + rel], p.src[rel], hash)
    {
      TargetMirrorsSource(fs, source, target, hash, now, applied, removed, rel);
    }
    FinishKeepsKinds(p.fs, source, target, p.src, p.tgt, applied, removed, now);
    FinishRescanKeys(p.fs, source, target, hash, p.src, p.tgt, applied, removed, now);
    RescanIsSource(p.fs, run.fs, source, target, hash, p.src);
  }

  // ---------------------------------------------------------------------
  // A second run

  /** Two prefixes of the same path are prefixes of one another. */
  lemma PrefixesComparable(a: Path, b: Path, q: Path)
    requires a <= q && b <= q
    ensures a <= b || b <= a
  {
    if |a| <= |b| {
      assert b[..|a|] == q[..|a|];
    } else {
      assert a[..|b|] == q[..|b|];
    }
  }

  /** With disjoint roots the loops of a run leave the source subtree as it
      was: every path they write, make or remove lies below the target. */
  lemma FinishKeepsSource(fs1: FS, source: Path, target: Path, src: Snapshot, tgt: Snapshot,
                          applied: seq<Entry>, removed: seq<Entry>, now: int)
    requires Disjoint(source, target) && Applies(src, tgt)
    ensures SameBelow(fs1, Finish(fs1, source, target, src, tgt, applied, removed, now).fs, source)
  {
    var a := ApplyAll(fs1, source, target, tgt, applied, now);
    var f := Finish(fs1, source, target, src, tgt, applied, removed, now).fs;
    ApplyAllFrame(fs1, source, target, tgt, applied, now);
    RemoveOrphansEffect(a.fs, target, src, removed);
    forall rel
      ensures (source + rel in fs1 <==> source + rel in f)
      ensures source + rel in fs1 ==> f[source + rel] == fs1[source + rel]
    {
      var q := source + rel;
      if w :| w in Written(target, tgt, applied) && q <= w {
        var i :| 0 <= i < |applied| && NeedsSync(tgt, applied[i].0, applied[i].1) && w == target + applied[i].0;
        DisjointJoin(target, source, applied[i].0);
        assert false;
      }
      if q in fs1 && UnderRemoved(target, src, removed, q) {
        var i :| 0 <= i < |removed| && removed[i].0 !in src && target + removed[i].0 <= q;
        PrefixesComparable(source, target, q);
        assert false;
      }
    }
  }

  /** A finished run whose source snapshot holds the root "." leaves the
      target root the directory it was. */
  lemma FinishKeepsTargetRoot(fs1: FS, source: Path, target: Path, src: Snapshot, tgt: Snapshot,
                              applied: seq<Entry>, removed: seq<Entry>, now: int)
    requires Applies(src, tgt) && [] in src
    requires target in fs1 && fs1[target].Dir?
    ensures var f := Finish(fs1, source, target, src, tgt, applied, removed, now).fs;
      target in f && f[target].Dir?
  {
    var a := ApplyAll(fs1, source, target, tgt, applied, now);
    ApplyAllFrame(fs1, source, target, tgt, applied, now);
    RemoveOrphansEffect(a.fs, target, src, removed);
  }

  /** With disjoint roots and a target root whose name is not hidden, once
      a run past the early returns has succeeded and the target scans
      cleanly, the next run over the filesystem it left, at any time and in
      any visit order, takes the "nothing to sync" return: it sends one 100
      and changes nothing. */
  lemma SecondRunChangesNothing(fs: FS, source: Path, target: Path, hash: Hasher, now: int,
                                applied: seq<Entry>, removed: seq<Entry>,
                                later: int, applied2: seq<Entry>, removed2: seq<Entry>)
    requires Tree(fs) && Disjoint(source, target) && !Hidden(BaseName(target))
    requires Planned(fs, source, target, hash, now, applied, removed)
    requires var p := Prepare(fs, source, target, hash, now); p.Scanned? && Applies(p.src, p.tgt)
    requires var run := SyncRun(fs, source, target, hash, now, applied, removed);
      run.err.None? && ScanSpec(run.fs, target, hash).Ok?
    ensures var run := SyncRun(fs, source, target, hash, now, applied, removed);
      SyncRun(run.fs, source, target, hash, later, applied2, removed2) == Run(run.fs, [100.0], None)
  {
    var p := Prepare(fs, source, target, hash, now);
    var run := SyncRun(fs, source, target, hash, now, applied, removed);
    assert run == Finish(p.fs, source, target, p.src, p.tgt, applied, removed, now);
    TargetRescanMatchesSource(fs, source, target, hash, now, applied, removed);
    EmptyIffHiddenRoot(p.fs, source, hash);
    FinishKeepsTargetRoot(p.fs, source, target, p.src, p.tgt, applied, removed, now);
    FinishKeepsSource(p.fs, source, target, p.src, p.tgt, applied, removed, now);
    ScanIsLocal(p.fs, run.fs, source, hash);
    var again := ScanSpec(run.fs, target, hash).value;
    assert Prepare(run.fs, source, target, hash, later) == Scanned(run.fs, p.src, again);
  }
}
