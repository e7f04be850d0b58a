/** The operations of the filesystem façade (`EmuFS.stat`, `mkdir`, `unlink`,
    `listdir`, `walk`, `chmod` in emufs/fs.py) as functions from the store
    before the call to the store after it and the outcome.  An operation that
    raises part way keeps the writes it made before raising, so a mutating
    operation yields a `Step`: the store it leaves and its result. */
module Facade {
  import opened Wrappers
  import opened Inodes
  import opened Tables
  import opened Paths
  import opened Store
  import opened Resolver
  import opened Stats

  /** 0o755 and 0o644. */
  const PERM_755: nat := 0x1ED
  const PERM_644: nat := 0x1A4

  /** `TYPE_DIR | 0o755`: the tag and the permission bits do not overlap. */
  const DIR_MODE: nat := TYPE_DIR + PERM_755

  /** A record with mode `DIR_MODE` is a directory. */
  lemma DirModeIsDir(i: Inode)
    requires i.mode == DIR_MODE
    ensures i.IsDir() && !i.IsFile()
  {
    assert DIR_MODE / 0x1000 == 4;
  }

  datatype Step<T> = Step(store: Store, result: Result<T, Error>)

  /** `stat`: `None` for a path that does not resolve, else the projection
      of the inode it names. */
  function StatOf(s: Store, p: Path): (r: Result<Option<Stat>, Error>)
    ensures r == Ok(None) <==> Resolve(s, p).Ok? && !Truthy(Resolve(s, p).value)
    ensures r.Ok? && r.value.Some? ==>
      && Resolve(s, p) == Ok(Some(r.value.value.ino))
      && InodeAt(s, r.value.value.ino).Ok?
      && r.value.value == FromInode(r.value.value.ino, InodeAt(s, r.value.value.ino).value)
  {
    var r :- Resolve(s, p);
    if !Truthy(r) then Ok(None)
    else
      var inode :- InodeAt(s, r.value);
      Ok(Some(FromInode(r.value, inode)))
  }

  /** `mkdir`: resolve the parent, then make the new directory in it.  The
      name is not checked against the parent's table. */
  function MkdirStep(s: Store, p: Path, newId: Id, newDataId: Id, now: Time): (r: Step<()>)
    ensures Resolve(s, Parent(p)).Err? ==> r == Step(s, Err(Resolve(s, Parent(p)).error))
    ensures Resolve(s, Parent(p)).Ok? && !Truthy(Resolve(s, Parent(p)).value) ==> r == Step(s, Err(NoSuchDirectory))
    ensures r.result.Ok? ==> r.store.Keys == s.Keys + {newId, newDataId}
  {
    match Resolve(s, Parent(p))
    case Err(e) => Step(s, Err(e))
    case Ok(parent) =>
      if !Truthy(parent) then Step(s, Err(NoSuchDirectory))
      else MkdirWrites(s, parent.value, Name(p), newId, newDataId, now)
  }

  /** The writes of `mkdir`, in order: the new empty table, the new inode
      record, the parent's entry. */
  function MkdirWrites(s: Store, parent: Id, name: string, newId: Id, newDataId: Id, now: Time): (r: Step<()>)
    ensures r.result.Ok? ==> r.store.Keys == s.Keys + {newId, newDataId}
  {
    var s1 := s[newDataId := Entries(EMPTY)];
    var inode := NewEmpty(newDataId, |EMPTY_TEXT|, DIR_MODE, now);
    match WithInode(s1, inode, newId)
    case Err(e) => Step(s1, Err(e))
    case Ok(s2) =>
      match AddEntry(s2, parent, name, newId)
      case Err(e) => Step(s2, Err(e))
      case Ok(s3) => Step(s3, Ok(()))
  }

  /** The checks `unlink` makes before it deletes anything: the path and its
      parent resolve, and a directory is empty.  Gives the target's id, the
      parent's id and the target's inode. */
  function UnlinkChecks(s: Store, p: Path): (r: Result<(Id, Id, Inode), Error>)
    ensures r == Err(NoSuchEntry) <==> Resolve(s, p).Ok? && !Truthy(Resolve(s, p).value)
    ensures r.Ok? ==>
      && Resolve(s, p) == Ok(Some(r.value.0)) && r.value.0 != ""
      && Resolve(s, Parent(p)) == Ok(Some(r.value.1))
      && InodeAt(s, r.value.0) == Ok(r.value.2)
      && (r.value.2.IsDir() ==> EntriesOf(s, r.value.0) == Ok(EMPTY))
  {
    var r :- Resolve(s, p);
    if !Truthy(r) then Err(NoSuchEntry)
    else
      var parent :- Resolve(s, Parent(p));
      if parent.None? then Err(ParentUnresolved)
      else
        var inode :- InodeAt(s, r.value);
        if inode.IsDir() then
          var t :- EntriesOf(s, r.value);
          if |t| > 0 then Err(DirectoryNotEmpty) else Ok((r.value, parent.value, inode))
        else Ok((r.value, parent.value, inode))
  }

  /** `unlink`: after the checks, the deletions. */
  function UnlinkStep(s: Store, p: Path): (r: Step<()>)
    ensures UnlinkChecks(s, p).Err? ==> r == Step(s, Err(UnlinkChecks(s, p).error))
    ensures r.result.Ok? ==> var (id, _, inode) := UnlinkChecks(s, p).value; r.store.Keys == s.Keys - {id, inode.dataId}
  {
    match UnlinkChecks(s, p)
    case Err(e) => Step(s, Err(e))
    case Ok((id, parent, inode)) => UnlinkWrites(s, id, parent, inode, Name(p))
  }

  /** The deletions of `unlink`, in order: the data blob, the inode record,
      the parent's entry. */
  function UnlinkWrites(s: Store, id: Id, parent: Id, inode: Inode, name: string): (r: Step<()>)
    ensures r.result.Ok? ==> r.store.Keys == s.Keys - {id, inode.dataId}
  {
    if inode.dataId !in s then Step(s, Err(MissingBlob))
    else
      var s1 := s - {inode.dataId};
      if id !in s1 then Step(s1, Err(MissingBlob))
      else
        var s2 := s1 - {id};
        match RemoveEntry(s2, parent, name)
        case Err(e) => Step(s2, Err(e))
        case Ok(s3) => Step(s3, Ok(()))
  }

  /** `listdir`: the names of a directory's table, in table order. */
  function ListdirOf(s: Store, p: Path): (r: Result<seq<string>, Error>)
    ensures r == Err(NoSuchDirectory) <==> Resolve(s, p).Ok? && !Truthy(Resolve(s, p).value)
    ensures r.Ok? ==> && Resolve(s, p).Ok? && Truthy(Resolve(s, p).value)
                      && EntriesOf(s, Resolve(s, p).value.value).Ok?
                      && r == Ok(Names(EntriesOf(s, Resolve(s, p).value.value).value))
  {
    var r :- Resolve(s, p);
    if !Truthy(r) then Err(NoSuchDirectory)
    else
      var t :- EntriesOf(s, r.value);
      Ok(Names(t))
  }

  /** `(mode & ~0xFF) | (m & 0xFF)` for a non-negative stored mode; Python's
      `& 0xFF` on a negative `m` is its remainder modulo 256. */
  function ChmodMode(mode: nat, m: int): (r: nat)
    ensures r / 256 == mode / 256
    ensures r % 256 == m % 256
    ensures Kind(r) == Kind(mode)
    ensures mode < TWO_16 ==> r < TWO_16
  {
    var r := (mode / 256) * 256 + m % 256;
    DivCompose(mode);
    DivCompose(r);
    r
  }

  lemma DivCompose(x: nat)
    ensures x / 256 / 16 == x / 0x1000
  {
    var q := x / 0x1000;
    var rest := x % 0x1000;
    assert x == 0x1000 * q + rest;
    assert x / 256 == 16 * q + rest / 256;
  }

  /** `chmod`: replace the low byte of the mode, stamp `ctime`, write the
      record back.  Nothing is written unless every step succeeds. */
  function ChmodStep(s: Store, p: Path, m: int, now: Time): (r: Result<Store, Error>)
    ensures Resolve(s, p).Err? ==> r == Err(Resolve(s, p).error)
    ensures Resolve(s, p).Ok? && !Truthy(Resolve(s, p).value) ==> r == Err(NoSuchEntry)
    ensures r.Ok? ==> r.value.Keys == s.Keys
  {
    var r :- Resolve(s, p);
    if !Truthy(r) then Err(NoSuchEntry)
    else
      var inode :- InodeAt(s, r.value);
      var changed := inode.(mode := ChmodMode(inode.mode, m)).UpdateModifiedTime(false, now);
      WithInode(s, changed, r.value)
  }

  // ---------------------------------------------------------------------
  // walk

  /** One `(path, dirs, nondirs)` triple yielded by `walk`. */
  datatype Listing = Listing(path: Path, dirs: seq<string>, nondirs: seq<string>)

  /** What a consumer of the `walk` generator sees: the triples yielded, and
      the exception that ended the iteration, if one did. */
  datatype Trace = Trace(items: seq<Listing>, error: Option<Error>)

  /** The loop over `entries.items()`: read each child's inode and append its
      name to `dirs` or to `nondirs`; the first unreadable child raises. */
  function Classify(s: Store, t: Table): (r: Result<(seq<string>, seq<string>), Error>)
    ensures r.Err? ==> ReadError(r.error)
    ensures r.Ok? ==> |r.value.0| + |r.value.1| == |t|
    decreases |t|
  {
    if t == [] then Ok(([], []))
    else
      var split :- Classify(s, t[..|t| - 1]);
      var last := t[|t| - 1];
      var inode :- InodeAt(s, last.1);
      if inode.IsDir() then Ok((split.0 + [last.0], split.1))
      else Ok((split.0, split.1 + [last.0]))
  }

  /** The triple `walk` yields for `p` itself: resolve it, read its table,
      classify the children. */
  function ListingOf(s: Store, p: Path): (r: Result<Listing, Error>)
    ensures r.Ok? ==> r.value.path == p
    ensures Resolve(s, p).Ok? && !Truthy(Resolve(s, p).value) ==> r == Err(NoSuchDirectory)
  {
    var id :- Resolve(s, p);
    if !Truthy(id) then Err(NoSuchDirectory)
    else
      var t :- EntriesOf(s, id.value);
      var split :- Classify(s, t);
      Ok(Listing(p, split.0, split.1))
  }

  /** `walk(path, topdown)` nested at most `depth` generators deep; deeper
      nesting raises, as Python's recursion limit does.  The triple for the
      path comes before the subtrees top-down, after them bottom-up, and is
      not yielded at all once a subtree has raised. */
  function WalkOf(s: Store, p: Path, topdown: bool, depth: nat): (r: Trace)
    ensures depth == 0 ==> r == Trace([], Some(RecursionLimit))
    ensures depth > 0 && ListingOf(s, p).Err? ==> r == Trace([], Some(ListingOf(s, p).error))
    decreases depth, 1
  {
    if depth == 0 then Trace([], Some(RecursionLimit))
    else WalkFrom(s, p, ListingOf(s, p), topdown, depth)
  }

  /** The rest of `walk(p)` once the triple for `p` has been read (or has
      failed to be). */
  function WalkFrom(s: Store, p: Path, listing: Result<Listing, Error>, topdown: bool, depth: nat): (r: Trace)
    requires depth > 0
    ensures listing.Err? ==> r == Trace([], Some(listing.error))
    decreases depth, 0
  {
    match listing
    case Err(e) => Trace([], Some(e))
    case Ok(here) => Around(here, WalkChildren(s, p, here.dirs, topdown, depth - 1), topdown)
  }

  /** The triple of a directory around those of its subtrees: before them
      top-down, after them bottom-up unless the subtrees raised. */
  function Around(here: Listing, below: Trace, topdown: bool): (r: Trace)
    ensures r.error == below.error
    ensures |r.items| == |below.items| + (if topdown || below.error.None? then 1 else 0)
    ensures topdown ==> r.items[0] == here
    ensures !topdown && below.error.None? ==> r.items[|r.items| - 1] == here
  {
    var before := if topdown then [here] else [];
    var after := if !topdown && below.error.None? then [here] else [];
    Trace(before + below.items + after, below.error)
  }

  /** The loop `for name in dirs: yield from walk(path / name)`, stopping at
      the first exception. */
  function WalkChildren(s: Store, p: Path, names: seq<string>, topdown: bool, depth: nat): Trace
    decreases depth, 2, |names|
  {
    if names == [] then Trace([], None)
    else
      var prev := WalkChildren(s, p, names[..|names| - 1], topdown, depth);
      if prev.error.Some? then prev
      else
        var sub := WalkOf(s, Join(p, names[|names| - 1]), topdown, depth);
        Trace(prev.items + sub.items, sub.error)
  }
}
