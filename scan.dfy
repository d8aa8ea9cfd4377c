/** The tree scanner of the sync engine: `getFileInfo`, the walk callback of
    `scanDirectory`, the hashing worker and the aggregator that builds the
    snapshot map.  The worker pool and its channels are run one job at a
    time; the walk visits the tree in whatever order the set of paths is
    taken apart. */
module Scan {
  import opened FileSystem

  /** A hex-encoded SHA-256 digest: never the empty string. */
  type Digest = s: string | s != [] witness "0"

  /** The content hash, left uninterpreted. */
  type Hasher = seq<Byte> -> Digest

  /** One snapshot entry; `path` is the absolute path that was statted. */
  datatype FileInfo = FileInfo(path: Path, size: nat, hash: string, modTime: int, isDir: bool)

  /** Keyed by the path relative to the scan root; the root itself is `[]`,
      which `filepath.Rel` spells ".". */
  type Snapshot = map<Path, FileInfo>

  datatype ScanError = WalkFailed | EntryFailed

  /** The record `getFileInfo` builds for the node at `p`. */
  function Describe(p: Path, node: Node, hash: Hasher): FileInfo {
    match node
    case Dir(size, modTime, _, _) => FileInfo(p, size, "", modTime, true)
    case File(content, modTime, _, _) => FileInfo(p, |content|, hash(content), modTime, false)
  }

  /** `getFileInfo(p)`: stat the entry, and hash it when it is a file. */
  function GetFileInfo(fs: FS, p: Path, hash: Hasher): (r: Result<FileInfo, ScanError>)
    ensures r.Ok? <==> p in fs && (fs[p].File? ==> fs[p].readable)
    ensures r.Ok? ==> r.value.path == p && r.value.isDir == fs[p].Dir? && r.value.modTime == fs[p].modTime
    ensures r.Ok? ==> (r.value.hash == "" <==> fs[p].Dir?)
    ensures r.Ok? && fs[p].File? ==> r.value.hash == hash(fs[p].content) && r.value.size == |fs[p].content|
  {
    if p !in fs then Err(EntryFailed)
    else if fs[p].File? && !fs[p].readable then Err(EntryFailed)
    else Ok(Describe(p, fs[p], hash))
  }

  /** The walk reads the directory at `p` and then goes into it: it is a
      readable directory and the callback did not answer `SkipDir`. */
  predicate Descends(fs: FS, p: Path) {
    p in fs && fs[p].Dir? && fs[p].listable && !Hidden(BaseName(p))
  }

  /** `root + rel` is handed to the walk callback: it exists, and the walk
      went into every directory above it, starting at the root. */
  predicate Reached(fs: FS, root: Path, rel: Path) {
    root + rel in fs && forall j | 0 <= j < |rel| :: Descends(fs, root + rel[..j])
  }

  /** `filepath.Walk` reads a directory before calling the callback on it,
      and the callback returns that error before looking at the name. */
  predicate ListingFails(fs: FS, p: Path) {
    p in fs && fs[p].Dir? && !fs[p].listable
  }

  /** The callback sends `root + rel` to the workers. */
  predicate Queued(fs: FS, root: Path, rel: Path) {
    Reached(fs, root, rel) && !ListingFails(fs, root + rel) && !Hidden(BaseName(root + rel))
  }

  /** Every path at or below `root`, relative to `root`. */
  function Under(fs: FS, root: Path): set<Path> {
    set p | p in fs && root <= p :: p[|root|..]
  }

  /** The walk itself fails: the root cannot be statted, or a directory it
      reaches cannot be read. */
  predicate WalkFails(fs: FS, root: Path) {
    root !in fs || exists rel | rel in Under(fs, root) :: Reached(fs, root, rel) && ListingFails(fs, root + rel)
  }

  /** Some worker fails: a queued file cannot be opened for hashing. */
  predicate EntryFails(fs: FS, root: Path) {
    exists rel | rel in Under(fs, root) :: Queued(fs, root, rel) && fs[root + rel].File? && !fs[root + rel].readable
  }

  /** The map a successful scan returns. */
  ghost function SnapshotOf(fs: FS, root: Path, hash: Hasher): Snapshot {
    map rel | rel in Under(fs, root) && Queued(fs, root, rel) :: Describe(root + rel, fs[root + rel], hash)
  }

  /** What `scanDirectory(root)` returns: a walk error comes first, then a
      worker error, and only a clean scan yields a map. */
  ghost function ScanSpec(fs: FS, root: Path, hash: Hasher): Result<Snapshot, ScanError> {
    if WalkFails(fs, root) then Err(WalkFailed)
    else if EntryFails(fs, root) then Err(EntryFailed)
    else Ok(SnapshotOf(fs, root, hash))
  }

  /** What the aggregator has stored once the paths in `done` were walked. */
  ghost function Collected(fs: FS, root: Path, hash: Hasher, done: set<Path>): Snapshot {
    map rel | rel in done && Queued(fs, root, rel) && GetFileInfo(fs, root + rel, hash).Ok? :: Describe(root + rel, fs[root + rel], hash)
  }

  ghost predicate WalkErrorIn(fs: FS, root: Path, done: set<Path>) {
    exists rel | rel in done :: Reached(fs, root, rel) && ListingFails(fs, root + rel)
  }

  ghost predicate EntryErrorIn(fs: FS, root: Path, done: set<Path>) {
    exists rel | rel in done :: Queued(fs, root, rel) && fs[root + rel].File? && !fs[root + rel].readable
  }

  /** Walking one more path changes the three results the way the callback,
      the worker and the aggregator do. */
  lemma WalkStep(fs: FS, root: Path, hash: Hasher, done: set<Path>, rel: Path)
    ensures WalkErrorIn(fs, root, done + {rel})
        <==> WalkErrorIn(fs, root, done) || (Reached(fs, root, rel) && ListingFails(fs, root + rel))
    ensures EntryErrorIn(fs, root, done + {rel})
        <==> EntryErrorIn(fs, root, done) || (Queued(fs, root, rel) && fs[root + rel].File? && !fs[root + rel].readable)
    ensures Collected(fs, root, hash, done + {rel})
         == if Queued(fs, root, rel) && GetFileInfo(fs, root + rel, hash).Ok?
            then Collected(fs, root, hash, done)[rel := Describe(root + rel, fs[root + rel], hash)]
            else Collected(fs, root, hash, done)
  {
  }

  /** When no worker fails, every queued entry is described. */
  lemma CleanScan(fs: FS, root: Path, hash: Hasher)
    requires !EntryFails(fs, root)
    ensures SnapshotOf(fs, root, hash) == Collected(fs, root, hash, Under(fs, root))
  {
    forall rel | rel in Under(fs, root) && Queued(fs, root, rel)
      ensures GetFileInfo(fs, root + rel, hash).Ok?
    {
      assert !(fs[root + rel].File? && !fs[root + rel].readable);
    }
  }

  /** `scanWorker.run` for one job: stat and hash the path, then make it
      relative to the scan root. */
  function RunJob(fs: FS, root: Path, p: Path, hash: Hasher): (r: Result<(Path, FileInfo), ScanError>)
    requires root <= p
    ensures r.Ok? <==> GetFileInfo(fs, p, hash).Ok?
    ensures r.Ok? ==> root + r.value.0 == p && r.value.1 == GetFileInfo(fs, p, hash).value
  {
    match GetFileInfo(fs, p, hash)
    case Err(e) => Err(e)
    case Ok(info) =>
      assert root + p[|root|..] == p;
      Ok((p[|root|..], info))
  }

  /** `scanDirectory(root)`: the walk callback, the workers and the
      aggregator, run one path at a time. */
  method ScanDirectory(fs: FS, root: Path, hash: Hasher) returns (r: Result<Snapshot, ScanError>)
    ensures r == ScanSpec(fs, root, hash)
  {
    if root !in fs {
      return Err(WalkFailed);
    }
    var files: Snapshot := map[];
    var walkErr, processErr := false, false;
    var todo := Under(fs, root);
    ghost var done: set<Path> := {};
    while todo != {}
      invariant todo <= Under(fs, root) && done == Under(fs, root) - todo
      invariant walkErr == WalkErrorIn(fs, root, done)
      invariant processErr == EntryErrorIn(fs, root, done)
      invariant files == Collected(fs, root, hash, done)
      decreases |todo|
    {
      var rel :| rel in todo;
      var path := root + rel;
      WalkStep(fs, root, hash, done, rel);
      if Reached(fs, root, rel) {
        if ListingFails(fs, path) {
          walkErr := true;
        } else if !Hidden(BaseName(path)) {
          var result := RunJob(fs, root, path, hash);
          match result {
            case Err(_) => processErr := true;
            case Ok((key, info)) => files := files[key := info];
          }
        }
      }
      todo := todo - {rel};
      done := done + {rel};
    }
    assert done == Under(fs, root);
    if walkErr {
      return Err(WalkFailed);
    }
    if processErr {
      return Err(EntryFailed);
    }
    CleanScan(fs, root, hash);
    return Ok(files);
  }

  /** No name on the way from the root to the entry, the root's own name
      included, starts with a dot. */
  predicate Visible(root: Path, rel: Path) {
    !Hidden(BaseName(root)) && forall i | 0 <= i < |rel| :: !Hidden(rel[i])
  }

  lemma BaseNameOfJoin(root: Path, rel: Path)
    ensures BaseName(root + rel) == if rel == [] then BaseName(root) else rel[|rel| - 1]
  {
    if rel == [] {
      assert root + rel == root;
    }
  }

  /** A path the callback sends to the workers has no hidden name on the
      way from the root. */
  lemma QueuedIsVisible(fs: FS, root: Path, rel: Path)
    requires Queued(fs, root, rel)
    ensures Visible(root, rel)
  {
    BaseNameOfJoin(root, rel);
    if rel != [] {
      assert Descends(fs, root + rel[..0]);
      assert rel[..0] == [];
      BaseNameOfJoin(root, rel[..0]);
    }
    forall i | 0 <= i < |rel|
      ensures !Hidden(rel[i])
    {
      if i < |rel| - 1 {
        assert Descends(fs, root + rel[..i + 1]);
        BaseNameOfJoin(root, rel[..i + 1]);
      }
    }
  }

  /** A snapshot never holds a dot entry nor anything beneath a dot
      directory, and the root is dropped when its own name is hidden. */
  lemma SnapshotHasNoHiddenNames(fs: FS, root: Path, hash: Hasher, rel: Path)
    requires ScanSpec(fs, root, hash).Ok?
    requires rel in ScanSpec(fs, root, hash).value
    ensures Visible(root, rel)
  {
    assert Queued(fs, root, rel);
    QueuedIsVisible(fs, root, rel);
  }

  /** On a well-formed tree whose walk does not fail, the walk queues every
      visible entry below the root. */
  lemma {:induction false} VisibleIsQueued(fs: FS, root: Path, rel: Path)
    requires Tree(fs)
    requires !WalkFails(fs, root)
    requires root + rel in fs && Visible(root, rel)
    ensures rel in Under(fs, root) && Queued(fs, root, rel)
    decreases |rel|
  {
    assert (root + rel)[|root|..] == rel;
    BaseNameOfJoin(root, rel);
    if rel != [] {
      var up := rel[..|rel| - 1];
      assert Parent(root + rel) == root + up;
      assert Visible(root, up);
      VisibleIsQueued(fs, root, up);
      BaseNameOfJoin(root, up);
      assert Descends(fs, root + up) by {
        if up != [] {
          assert !Hidden(up[|up| - 1]);
        }
      }
      ReachedThroughParent(fs, root, rel);
    }
    assert Reached(fs, root, rel);
  }

  /** An entry whose parent was reached and is gone into is reached. */
  lemma ReachedThroughParent(fs: FS, root: Path, rel: Path)
    requires rel != [] && root + rel in fs
    requires Reached(fs, root, rel[..|rel| - 1]) && Descends(fs, root + rel[..|rel| - 1])
    ensures Reached(fs, root, rel)
  {
    var up := rel[..|rel| - 1];
    forall j | 0 <= j < |rel|
      ensures Descends(fs, root + rel[..j])
    {
      if j < |up| {
        assert rel[..j] == up[..j];
      } else {
        assert rel[..j] == up;
      }
    }
  }

  /** Two filesystems that agree at and below `root`. */
  ghost predicate SameBelow(fs1: FS, fs2: FS, root: Path) {
    forall rel :: (root + rel in fs1 <==> root + rel in fs2) && (root + rel in fs1 ==> fs1[root + rel] == fs2[root + rel])
  }

  /** A scan sees nothing outside the subtree of its root: two filesystems
      that agree there scan alike. */
  lemma ScanIsLocal(fs1: FS, fs2: FS, root: Path, hash: Hasher)
    requires SameBelow(fs1, fs2, root)
    ensures ScanSpec(fs1, root, hash) == ScanSpec(fs2, root, hash)
  {
    assert root + [] == root;
    forall p | p in fs1 && root <= p
      ensures p[|root|..] in Under(fs2, root)
    {
      assert root + p[|root|..] == p;
    }
    forall p | p in fs2 && root <= p
      ensures p[|root|..] in Under(fs1, root)
    {
      assert root + p[|root|..] == p;
    }
    assert Under(fs1, root) == Under(fs2, root);
    forall rel
      ensures Reached(fs1, root, rel) <==> Reached(fs2, root, rel)
      ensures Queued(fs1, root, rel) <==> Queued(fs2, root, rel)
    {
      assert forall j | 0 <= j < |rel| :: Descends(fs1, root + rel[..j]) <==> Descends(fs2, root + rel[..j]);
    }
    assert WalkFails(fs1, root) <==> WalkFails(fs2, root);
    assert EntryFails(fs1, root) <==> EntryFails(fs2, root);
    assert SnapshotOf(fs1, root, hash) == SnapshotOf(fs2, root, hash);
  }

  /** `after` differs from `before` only in what files hold: an entry the
      two share that changed was a file before and after. */
  ghost predicate SameKinds(before: FS, after: FS) {
    forall q | q in before && q in after && after[q] != before[q] :: before[q].File? && after[q].File?
  }

  /** A path the walk queues after such a change, and whose entry was
      already in the well-formed tree before it, was queued before it too. */
  lemma QueuedBefore(before: FS, after: FS, root: Path, rel: Path)
    requires Tree(before) && SameKinds(before, after)
    requires root + rel in before && Queued(after, root, rel)
    ensures rel in Under(before, root) && Queued(before, root, rel)
  {
    assert (root + rel)[|root|..] == rel;
    forall j | 0 <= j < |rel|
      ensures Descends(before, root + rel[..j])
    {
      JoinedPrefixInTree(before, root, rel, j);
      DescendsKept(before, after, root + rel[..j]);
    }
  }

  lemma DescendsKept(before: FS, after: FS, p: Path)
    requires SameKinds(before, after) && p in before && Descends(after, p)
    ensures Descends(before, p)
  {
  }

  /** In a well-formed tree, every path on the way from `root` to an entry
      below it is an entry. */
  lemma JoinedPrefixInTree(fs: FS, root: Path, rel: Path, j: nat)
    requires Tree(fs) && root + rel in fs && j <= |rel|
    ensures root + rel[..j] in fs
  {
    assert root + rel[..j] == (root + rel)[..|root| + j];
    TreePrefix(fs, root + rel, |root| + j);
  }

  /** On a well-formed tree a clean scan holds exactly the visible entries
      below the root, keyed by their path relative to the root. */
  lemma SnapshotIsVisibleSubtree(fs: FS, root: Path, hash: Hasher, rel: Path)
    requires Tree(fs)
    requires ScanSpec(fs, root, hash).Ok?
    ensures rel in ScanSpec(fs, root, hash).value <==> root + rel in fs && Visible(root, rel)
  {
    if rel in ScanSpec(fs, root, hash).value {
      SnapshotHasNoHiddenNames(fs, root, hash, rel);
    }
    if root + rel in fs && Visible(root, rel) {
      VisibleIsQueued(fs, root, rel);
    }
  }

  /** Every entry of a snapshot is what `getFileInfo` reports for the path
      it is keyed by, joined to the root. */
  lemma SnapshotEntry(fs: FS, root: Path, hash: Hasher, rel: Path)
    requires ScanSpec(fs, root, hash).Ok?
    requires rel in ScanSpec(fs, root, hash).value
    ensures root + rel in fs
    ensures ScanSpec(fs, root, hash).value[rel] == GetFileInfo(fs, root + rel, hash).value
    ensures var info := ScanSpec(fs, root, hash).value[rel];
      && info.path == root + rel
      && info.modTime == fs[root + rel].modTime
      && (info.isDir <==> fs[root + rel].Dir?)
      && (info.hash == "" <==> info.isDir)
      && (!info.isDir ==> info.hash == hash(fs[root + rel].content) && info.size == |fs[root + rel].content|)
  {
    assert Queued(fs, root, rel);
    assert !(fs[root + rel].File? && !fs[root + rel].readable) by {
      assert rel in Under(fs, root);
    }
  }

  /** Every proper prefix of a snapshot key is a directory entry of the same
      snapshot: the walk only reaches an entry through its parents. */
  lemma SnapshotPrefixClosed(fs: FS, root: Path, hash: Hasher, rel: Path, k: nat)
    requires ScanSpec(fs, root, hash).Ok?
    requires rel in ScanSpec(fs, root, hash).value
    requires k <= |rel|
    ensures rel[..k] in ScanSpec(fs, root, hash).value
    ensures k < |rel| ==> ScanSpec(fs, root, hash).value[rel[..k]].isDir
  {
    if k < |rel| {
      var up := rel[..k];
      assert Queued(fs, root, rel);
      assert Descends(fs, root + up);
      forall j | 0 <= j < |up|
        ensures Descends(fs, root + up[..j])
      {
        assert up[..j] == rel[..j];
      }
      assert Reached(fs, root, up);
      assert (root + up)[|root|..] == up;
      assert up in Under(fs, root);
      assert Queued(fs, root, up);
    } else {
      assert rel[..k] == rel;
    }
  }

  /** A clean scan is empty exactly when the root's own name is hidden;
      otherwise the root is in it under the key `[]` (Go's "."). */
  lemma EmptyIffHiddenRoot(fs: FS, root: Path, hash: Hasher)
    requires ScanSpec(fs, root, hash).Ok?
    ensures ScanSpec(fs, root, hash).value == map[] <==> Hidden(BaseName(root))
    ensures !Hidden(BaseName(root)) ==> [] in ScanSpec(fs, root, hash).value
  {
    var s := ScanSpec(fs, root, hash).value;
    if Hidden(BaseName(root)) {
      forall rel | rel in s
        ensures false
      {
        SnapshotHasNoHiddenNames(fs, root, hash, rel);
      }
    } else {
      assert root + [] == root;
      assert root[|root|..] == [];
      assert [] in Under(fs, root);
      assert Reached(fs, root, []);
      assert Queued(fs, root, []);
      assert [] in s;
    }
  }

  /** On a well-formed tree, a file that cannot be opened anywhere in the
      visible part of the tree makes the scan fail. */
  lemma UnreadableFileFailsScan(fs: FS, root: Path, hash: Hasher, rel: Path)
    requires Tree(fs)
    requires root + rel in fs && Visible(root, rel)
    requires fs[root + rel].File? && !fs[root + rel].readable
    ensures ScanSpec(fs, root, hash).Err?
  {
    if !WalkFails(fs, root) {
      VisibleIsQueued(fs, root, rel);
      assert EntryFails(fs, root);
    }
  }
}
