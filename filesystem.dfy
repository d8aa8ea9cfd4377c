/** The host filesystem as the backup core sees it: a finite map from absolute
    paths to nodes, and the three `os` calls the sync engine relies on
    (`MkdirAll`, `RemoveAll`, and the create/copy/chtimes sequence of
    `copyFile`).  A path is the list of its components; `[]` is "/". */
module FileSystem {

  type Name = string
  type Path = seq<Name>
  type Byte = bv8

  /** A directory carries its permission bits as two flags: `listable` (its
      entries can be read) and `writable` (entries can be created or removed
      in it).  A file is `readable` when it can be opened for reading and
      `writable` when it can be opened for writing. */
  datatype Node =
    | Dir(size: nat, modTime: int, listable: bool, writable: bool)
    | File(content: seq<Byte>, modTime: int, readable: bool, writable: bool)

  type FS = map<Path, Node>

  datatype IoError = NotFound | NotADirectory | IsADirectory | PermissionDenied

  datatype Result<T, E> = Ok(value: T) | Err(error: E)

  datatype Option<T> = None | Some(value: T)

  /** `strings.HasPrefix(name, ".")` */
  predicate Hidden(name: Name) {
    |name| > 0 && name[0] == '.'
  }

  /** The name `os.FileInfo.Name()` reports for the entry at `p`. */
  function BaseName(p: Path): Name {
    if p == [] then "/" else p[|p| - 1]
  }

  /** `filepath.Dir` */
  function Parent(p: Path): (q: Path)
    ensures p != [] ==> |q| == |p| - 1 && q <= p
  {
    if p == [] then [] else p[..|p| - 1]
  }

  /** Whether `fs` is well formed as a directory tree: the root is a directory and every
      other entry sits in a directory. */
  ghost predicate Tree(fs: FS) {
    && [] in fs && fs[[]].Dir?
    && forall p | p in fs && p != [] :: Parent(p) in fs && fs[Parent(p)].Dir?
  }

  /** In a well-formed tree every prefix of an entry is an entry, and every
      proper prefix is a directory. */
  lemma {:induction false} TreePrefix(fs: FS, p: Path, k: nat)
    requires Tree(fs) && p in fs && k <= |p|
    ensures p[..k] in fs
    ensures k < |p| ==> fs[p[..k]].Dir?
    decreases |p|
  {
    if k == |p| {
      assert p[..k] == p;
    } else {
      var up := Parent(p);
      TreePrefix(fs, up, k);
      assert up[..k] == p[..k];
      if k == |up| {
        assert up[..k] == up;
      }
    }
  }

  /** A directory created by `os.MkdirAll(_, 0755)`. */
  function NewDir(now: int): Node {
    Dir(0, now, true, true)
  }


  /** Every prefix of `p` from length `|q|` up is missing from `fs`: the
      entries `MkdirAll(p)` has to create start at `q`. */
  ghost predicate MissingFrom(fs: FS, p: Path, q: Path) {
    q <= p && forall j | |q| <= j <= |p| :: p[..j] !in fs
  }

  /** `os.MkdirAll(p, 0755)`: succeeds at once when `p` is a directory,
      fails when `p` is a file, otherwise makes the parent and then `p`.
      A failure creates nothing: the first directory to be created is the
      only one whose parent may be unwritable. */
  function MkdirAll(fs: FS, p: Path, now: int): (r: Result<FS, IoError>)
    decreases |p|
    ensures r.Ok? ==> p in r.value && r.value[p].Dir?
    ensures r.Ok? ==> forall q | q in fs :: q in r.value && r.value[q] == fs[q]
    ensures r.Ok? ==> forall q | q in r.value && q !in fs :: MissingFrom(fs, p, q) && r.value[q] == NewDir(now)
    ensures p in fs ==> (r.Ok? <==> fs[p].Dir?)
    ensures p in fs && fs[p].Dir? ==> r == Ok(fs)
    ensures r.Ok? && Tree(fs) ==> Tree(r.value)
  {
    if p in fs then
      if fs[p].Dir? then Ok(fs) else Err(NotADirectory)
    else if p == [] then
      Err(NotFound)
    else
      match MkdirAll(fs, Parent(p), now)
      case Err(e) => Err(e)
      case Ok(fs1) =>
        if fs1[Parent(p)].writable then
          var made := fs1[p := NewDir(now)];
          assert forall q | q in made && q !in fs :: MissingFrom(fs, p, q) by {
            forall q | q in made && q !in fs ensures MissingFrom(fs, p, q) {
              assert p[..|p|] == p;
              if q != p {
                assert MissingFrom(fs, Parent(p), q);
                assert forall j | |q| <= j < |p| :: Parent(p)[..j] == p[..j];
              }
            }
          }
          Ok(made)
        else
          Err(PermissionDenied)
  }

  /** Whether `os.Create(dst)` succeeds: it opens read-write, so an existing
      file is truncated only when it is both readable and writable;
      otherwise the parent must be a writable directory. */
  predicate CanCreate(fs: FS, dst: Path) {
    if dst in fs then fs[dst].File? && fs[dst].readable && fs[dst].writable
    else Parent(dst) in fs && fs[Parent(dst)].Dir? && fs[Parent(dst)].writable && dst != []
  }

  /** `copyFile(src, dst, modTime)`: open `src`, create (truncate) `dst`,
      copy the bytes, then set the modification time to `modTime`, the
      source's recorded time rather than the clock. When `src` and `dst` are
      the same file, the truncation empties it before it is read. */
  function CopyFile(fs: FS, src: Path, dst: Path, modTime: int): (r: Result<FS, IoError>)
    ensures r.Ok? <==> src in fs && fs[src].File? && fs[src].readable && CanCreate(fs, dst)
    ensures r.Ok? ==> r.value.Keys == fs.Keys + {dst}
    ensures r.Ok? ==> r.value[dst] == File(if src == dst then [] else fs[src].content, modTime, true, true)
    ensures r.Ok? ==> forall q | q in fs && q != dst :: r.value[q] == fs[q]
    ensures r.Ok? && Tree(fs) ==> Tree(r.value)
  {
    if src !in fs then Err(NotFound)
    else if fs[src].Dir? then Err(IsADirectory)
    else if !fs[src].readable then Err(PermissionDenied)
    else if dst in fs && fs[dst].Dir? then Err(IsADirectory)
    else if !CanCreate(fs, dst) then
      if dst in fs || (Parent(dst) in fs && fs[Parent(dst)].Dir?) then Err(PermissionDenied)
      else if Parent(dst) in fs then Err(NotADirectory)
      else Err(NotFound)
    else
      var bytes := if src == dst then [] else fs[src].content;
      Ok(fs[dst := File(bytes, modTime, true, true)])
  }

  /** A directory with at least one entry. */
  predicate HasEntries(fs: FS, q: Path) {
    exists c | c in fs :: |c| == |q| + 1 && q <= c
  }

  /** Whether `os.RemoveAll(p)` can remove the whole subtree at `p`: the
      parent must be writable, and every non-empty directory inside must be
      listable and writable. */
  predicate CanRemove(fs: FS, p: Path) {
    && p != []
    && Parent(p) in fs && fs[Parent(p)].Dir? && fs[Parent(p)].writable
    && forall q | q in fs && p <= q && fs[q].Dir? && HasEntries(fs, q) :: fs[q].listable && fs[q].writable
  }

  /** `os.RemoveAll(p)`: a missing path is not an error; otherwise the whole
      subtree goes, or nothing does. */
  function RemoveAll(fs: FS, p: Path): (r: Result<FS, IoError>)
    ensures p !in fs ==> r == Ok(fs)
    ensures r.Ok? <==> p !in fs || CanRemove(fs, p)
    ensures r.Ok? && p in fs ==> forall q :: q in r.value <==> q in fs && !(p <= q)
    ensures r.Ok? ==> forall q | q in r.value :: r.value[q] == fs[q]
    ensures r.Ok? && Tree(fs) ==> Tree(r.value)
  {
    if p !in fs then Ok(fs)
    else if !CanRemove(fs, p) then Err(PermissionDenied)
    else Ok(map q | q in fs && !(p <= q) :: fs[q])
  }
}
