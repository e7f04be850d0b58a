/** The `EmuFS` object of emufs/fs.py: the blob store it owns, changed in
    place by its methods.  Every method is proved to do what the matching
    function of `Store`, `Resolver` or `Facade` says, and that function's own
    properties are proved in `FacadeProps`.  The store is a field the methods
    reassign; identifiers and the clock are parameters. */
module EmuFs {
  import opened Wrappers
  import opened Inodes
  import opened Tables
  import opened Paths
  import opened Store
  import opened Resolver
  import opened Stats
  import opened Facade
  import opened FacadeProps

  class EmuFS {
    /** The blobs under the `indexeddb` directory. */
    var store: Store

    constructor(s: Store)
      ensures store == s
    {
      store := s;
    }

    /** `_read_inode`. */
    method ReadInode(id: Id) returns (r: Result<Inode, Error>)
      ensures r == InodeAt(store, id)
    {
      if id !in store {
        return Err(MissingBlob);
      }
      match store[id]
      case Entries(_) =>
        r := Err(WrongBlobKind);
      case Bytes(b) =>
        match FromBytes(b)
        case Ok(i) => r := Ok(i);
        case Err(e) => r := Err(CorruptInode(e));
    }

    /** `_write_inode`: nothing is written when the record cannot be encoded. */
    method WriteInode(i: Inode, id: Id) returns (r: Result<(), Error>)
      modifies this
      ensures WithInode(old(store), i, id).Ok? ==> r == Ok(()) && store == WithInode(old(store), i, id).value
      ensures WithInode(old(store), i, id).Err? ==> r == Err(WithInode(old(store), i, id).error) && store == old(store)
    {
      match ToBytes(i)
      case Err(e) =>
        r := Err(Unencodable(e));
      case Ok(b) =>
        store := store[id := Bytes(b)];
        r := Ok(());
    }

    /** `_get_dir_entries`. */
    method GetDirEntries(id: Id) returns (r: Result<Table, Error>)
      ensures r == EntriesOf(store, id)
    {
      var inode :- ReadInode(id);
      if !inode.IsDir() {
        return Err(NotADirectory);
      }
      r := TableAt(store, inode.dataId);
    }

    /** `_add_dir_entry`. */
    method AddDirEntry(dir: Id, name: string, child: Id) returns (r: Result<(), Error>)
      modifies this
      ensures AddEntry(old(store), dir, name, child).Ok? ==> r == Ok(()) && store == AddEntry(old(store), dir, name, child).value
      ensures AddEntry(old(store), dir, name, child).Err? ==> r == Err(AddEntry(old(store), dir, name, child).error) && store == old(store)
    {
      var inode :- ReadInode(dir);
      if !inode.IsDir() {
        return Err(NotADirectory);
      }
      var t :- TableAt(store, inode.dataId);
      store := store[inode.dataId := Entries(Put(t, name, child))];
      r := Ok(());
    }

    /** `_remove_dir_entry`. */
    method RemoveDirEntry(dir: Id, name: string) returns (r: Result<(), Error>)
      modifies this
      ensures RemoveEntry(old(store), dir, name).Ok? ==> r == Ok(()) && store == RemoveEntry(old(store), dir, name).value
      ensures RemoveEntry(old(store), dir, name).Err? ==> r == Err(RemoveEntry(old(store), dir, name).error) && store == old(store)
    {
      var inode :- ReadInode(dir);
      if !inode.IsDir() {
        return Err(NotADirectory);
      }
      var t :- TableAt(store, inode.dataId);
      if Lookup(t, name).None? {
        return Err(KeyMissing);
      }
      store := store[inode.dataId := Entries(Remove(t, name))];
      r := Ok(());
    }

    /** `_resolve_path`: the loop over every component but the last, then
        the lookup of the last. */
    method ResolvePath(p: Path) returns (r: Result<Option<Id>, Error>)
      ensures r == Resolve(store, p)
    {
      var rootEntries :- GetDirEntries(ROOT_ID);
      var parts := Parent(p).parts;
      var entries := rootEntries;
      var i := 0;
      while i < |parts|
        invariant 0 <= i <= |parts|
        invariant WalkParts(store, rootEntries, parts) == WalkParts(store, entries, parts[i..])
      {
        assert parts[i..][1..] == parts[i + 1..];
        match Lookup(entries, parts[i])
        case None =>
          return Ok(None);
        case Some(c) =>
          entries :- GetDirEntries(c);
        i := i + 1;
      }
      if Name(p) == "" {
        return Ok(Some(ROOT_ID));
      }
      r := Ok(Lookup(entries, Name(p)));
    }

    /** `stat`. */
    method Stat(p: Path) returns (r: Result<Option<Stat>, Error>)
      ensures r == StatOf(store, p)
    {
      var id :- ResolvePath(p);
      if !Truthy(id) {
        return Ok(None);
      }
      var inode :- ReadInode(id.value);
      r := Ok(Some(FromInode(id.value, inode)));
    }

    /** `mkdir`, with the two uuid4 strings and the clock reading as
        parameters. */
    method Mkdir(p: Path, newId: Id, newDataId: Id, now: Time) returns (r: Result<(), Error>)
      modifies this
      ensures Step(store, r) == MkdirStep(old(store), p, newId, newDataId, now)
    {
      var parent :- ResolvePath(Parent(p));
      if !Truthy(parent) {
        return Err(NoSuchDirectory);
      }
      ghost var s0 := store;
      assert MkdirStep(s0, p, newId, newDataId, now) == MkdirWrites(s0, parent.value, Name(p), newId, newDataId, now);
      store := store[newDataId := Entries(EMPTY)];
      var inode := NewEmpty(newDataId, |EMPTY_TEXT|, DIR_MODE, now);
      ghost var s1 := store;
      r := WriteInode(inode, newId);
      if r.Err? {
        return;
      }
      ghost var s2 := store;
      assert WithInode(s1, inode, newId) == Ok(s2);
      r := AddDirEntry(parent.value, Name(p), newId);
      assert MkdirWrites(s0, parent.value, Name(p), newId, newDataId, now) == Step(store, r);
    }

    /** `unlink`. */
    method Unlink(p: Path) returns (r: Result<(), Error>)
      modifies this
      ensures Step(store, r) == UnlinkStep(old(store), p)
    {
      var target :- ResolvePath(p);
      if !Truthy(target) {
        return Err(NoSuchEntry);
      }
      var id := target.value;
      var parent :- ResolvePath(Parent(p));
      if parent.None? {
        return Err(ParentUnresolved);
      }
      var inode :- ReadInode(id);
      if inode.IsDir() {
        var t :- GetDirEntries(id);
        if |t| > 0 {
          return Err(DirectoryNotEmpty);
        }
      }
      if inode.dataId !in store {
        return Err(MissingBlob);
      }
      store := store - {inode.dataId};
      if id !in store {
        return Err(MissingBlob);
      }
      store := store - {id};
      r := RemoveDirEntry(parent.value, Name(p));
    }

    /** `listdir`. */
    method Listdir(p: Path) returns (r: Result<seq<string>, Error>)
      ensures r == ListdirOf(store, p)
    {
      var id :- ResolvePath(p);
      if !Truthy(id) {
        return Err(NoSuchDirectory);
      }
      var t :- GetDirEntries(id.value);
      r := Ok(Names(t));
    }

    /** `chmod`, with the clock reading as a parameter. */
    method Chmod(p: Path, m: int, now: Time) returns (r: Result<(), Error>)
      modifies this
      ensures ChmodStep(old(store), p, m, now).Ok? ==> r == Ok(()) && store == ChmodStep(old(store), p, m, now).value
      ensures ChmodStep(old(store), p, m, now).Err? ==> r == Err(ChmodStep(old(store), p, m, now).error) && store == old(store)
    {
      var id :- ResolvePath(p);
      if !Truthy(id) {
        return Err(NoSuchEntry);
      }
      var inode :- ReadInode(id.value);
      inode := inode.(mode := ChmodMode(inode.mode, m));
      inode := inode.UpdateModifiedTime(false, now);
      r := WriteInode(inode, id.value);
    }

    /** The head of `walk`: resolve the path, read its table, and sort the
        children into directories and the rest, in table order. */
    method ListPath(p: Path) returns (r: Result<Listing, Error>)
      ensures r == ListingOf(store, p)
    {
      var id :- ResolvePath(p);
      if !Truthy(id) {
        return Err(NoSuchDirectory);
      }
      var t :- GetDirEntries(id.value);
      var dirs: seq<string> := [];
      var nondirs: seq<string> := [];
      var i := 0;
      while i < |t|
        invariant 0 <= i <= |t|
        invariant Classify(store, t[..i]) == Ok((dirs, nondirs))
      {
        assert t[..i + 1][..i] == t[..i];
        var inode := ReadInode(t[i].1);
        if inode.Err? {
          ClassifyStops(store, t, i + 1);
          return Err(inode.error);
        }
        if inode.value.IsDir() {
          dirs := dirs + [t[i].0];
        } else {
          nondirs := nondirs + [t[i].0];
        }
        i := i + 1;
      }
      assert t[..|t|] == t;
      r := Ok(Listing(p, dirs, nondirs));
    }

    /** `walk(p, topdown)` drained: the triples it yields and the exception
        that ends it, nested at most `depth` calls deep. */
    method Walk(p: Path, topdown: bool, depth: nat) returns (tr: Trace)
      ensures tr == WalkOf(store, p, topdown, depth)
      decreases depth, 0
    {
      if depth == 0 {
        return Trace([], Some(RecursionLimit));
      }
      var listing := ListPath(p);
      if listing.Err? {
        return Trace([], Some(listing.error));
      }
      var here := listing.value;
      var below := WalkSubdirs(p, here.dirs, topdown, depth - 1);
      var before := if topdown then [here] else [];
      var after := if !topdown && below.error.None? then [here] else [];
      tr := Trace(before + below.items + after, below.error);
    }

    /** `for name in dirs: yield from self.walk(path / name, topdown)`,
        ending at the first exception. */
    method WalkSubdirs(p: Path, names: seq<string>, topdown: bool, depth: nat) returns (below: Trace)
      ensures below == WalkChildren(store, p, names, topdown, depth)
      decreases depth, 1
    {
      below := Trace([], None);
      var i := 0;
      while i < |names|
        invariant 0 <= i <= |names|
        invariant below == WalkChildren(store, p, names[..i], topdown, depth)
        invariant below.error.None?
      {
        WalkChildrenNext(store, p, names, i, topdown, depth);
        var sub := Walk(Join(p, names[i]), topdown, depth);
        below := Trace(below.items + sub.items, sub.error);
        if sub.error.Some? {
          WalkChildrenStops(store, p, names, i + 1, topdown, depth);
          return;
        }
        i := i + 1;
      }
      assert names[..|names|] == names;
    }
  }
}
