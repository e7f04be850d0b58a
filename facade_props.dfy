/** What the filesystem operations of emufs/fs.py guarantee, stated over the
    functions of `Facade`. */
module FacadeProps {
  import opened Wrappers
  import opened Inodes
  import opened Tables
  import opened Paths
  import opened Store
  import opened Resolver
  import opened Stats
  import opened Facade

  /** The two identifiers `mkdir` draws are new to the store and distinct,
      the inode identifier passes Python's truth test, and the data
      identifier can be written into a record (a uuid4 string does both). */
  predicate FreshIds(s: Store, newId: Id, newDataId: Id) {
    newId !in s && newDataId !in s && newId != newDataId && newId != "" && IsAscii(newDataId)
  }

  /** Resolving `q` does not read the table of `dir`: the directory tree has
      no cycle through `dir` on the way to `q`.  Resolving the root path only
      reads the root, so it imposes nothing there. */
  predicate TableOffPath(s: Store, q: Path, dir: Id) {
    q.parts == [] || InodeAt(s, dir).Err? || TableKey(s, dir) !in ResolveReads(s, q)
  }

  // ---------------------------------------------------------------------
  // mkdir

  /** The store after the first two writes of `mkdir`: the new table and the
      new record are there, and nothing else has changed. */
  lemma MkdirFirstWrites(s: Store, parent: Id, name: string, newId: Id, newDataId: Id, now: Time)
    returns (s2: Store)
    requires EntriesOf(s, parent).Ok?
    requires FreshIds(s, newId, newDataId)
    ensures AddEntry(s2, parent, name, newId).Ok?
    ensures MkdirWrites(s, parent, name, newId, newDataId, now) == Step(AddEntry(s2, parent, name, newId).value, Ok(()))
    ensures s2.Keys == s.Keys + {newId, newDataId}
    ensures forall k :: k in s ==> s2[k] == s[k]
    ensures s2[newDataId] == Entries(EMPTY)
    ensures InodeAt(s2, newId) == Ok(NewEmpty(newDataId, |EMPTY_TEXT|, DIR_MODE, now))
    ensures EntriesOf(s2, parent) == EntriesOf(s, parent) && InodeAt(s2, parent) == InodeAt(s, parent)
  {
    s2 := NewDirWritten(s, newId, newDataId, now);
    DirGrown(s, s2, parent);
    AddEntryEffect(s2, parent, name, newId);
  }

  /** The new empty table and the new directory record, written under fresh
      keys, leave every old blob in place. */
  lemma NewDirWritten(s: Store, newId: Id, newDataId: Id, now: Time) returns (s2: Store)
    requires FreshIds(s, newId, newDataId)
    ensures WithInode(s[newDataId := Entries(EMPTY)], NewEmpty(newDataId, |EMPTY_TEXT|, DIR_MODE, now), newId) == Ok(s2)
    ensures s2.Keys == s.Keys + {newId, newDataId}
    ensures forall k :: k in s ==> s2[k] == s[k]
    ensures s2[newDataId] == Entries(EMPTY)
    ensures InodeAt(s2, newId) == Ok(NewEmpty(newDataId, |EMPTY_TEXT|, DIR_MODE, now))
  {
    var s1 := s[newDataId := Entries(EMPTY)];
    var inode := NewEmpty(newDataId, |EMPTY_TEXT|, DIR_MODE, now);
    assert Encodable(inode);
    s2 := WithInode(s1, inode, newId).value;
  }

  /** Adding blobs under new keys leaves a directory readable as before. */
  lemma DirGrown(s: Store, s': Store, dir: Id)
    requires EntriesOf(s, dir).Ok?
    requires s.Keys <= s'.Keys && forall k :: k in s ==> s'[k] == s[k]
    ensures EntriesOf(s', dir) == EntriesOf(s, dir) && InodeAt(s', dir) == InodeAt(s, dir)
  {
    var key := TableKey(s, dir);
    DirReadsOfDir(s, dir);
    assert s'[dir] == s[dir] && s'[key] == s[key];
    EntriesOfFrame(s, s', dir);
    InodeAtFrame(s, s', dir);
  }

  /** The writes of `mkdir` succeed in a directory whose table can be read,
      add exactly two blobs, the empty table and a directory record of mode
      `TYPE_DIR | 0o755` whose size is that of the text "{}", and rewrite
      only the parent's table, where the name now maps to the new directory
      (replacing any entry of that name). */
  lemma MkdirEffect(s: Store, parent: Id, name: string, newId: Id, newDataId: Id, now: Time)
    requires EntriesOf(s, parent).Ok?
    requires FreshIds(s, newId, newDataId)
    ensures MkdirWrites(s, parent, name, newId, newDataId, now).result == Ok(())
    ensures var s' := MkdirWrites(s, parent, name, newId, newDataId, now).store;
      && s'.Keys == s.Keys + {newId, newDataId}
      && InodeAt(s', newId) == Ok(NewEmpty(newDataId, |EMPTY_TEXT|, DIR_MODE, now))
      && EntriesOf(s', newId) == Ok(EMPTY)
      && InodeAt(s', parent) == InodeAt(s, parent)
      && EntriesOf(s', parent) == Ok(Put(EntriesOf(s, parent).value, name, newId))
      && (forall k :: k in s && k != TableKey(s, parent) ==> s'[k] == s[k])
  {
    var s2 := MkdirFirstWrites(s, parent, name, newId, newDataId, now);
    AddEntryEffect(s2, parent, name, newId);
    var s3 := AddEntry(s2, parent, name, newId).value;
    assert TableKey(s2, parent) == TableKey(s, parent);
    InodeAtFrame(s2, s3, newId);
    DirModeIsDir(NewEmpty(newDataId, |EMPTY_TEXT|, DIR_MODE, now));
    assert s3[newDataId] == s2[newDataId];
  }

  lemma InodeAtFrame(s: Store, s': Store, id: Id)
    requires id in s && id in s' && s'[id] == s[id]
    ensures InodeAt(s', id) == InodeAt(s, id)
  {
  }

  /** A deletion of `id` and `dataId` that rewrote only the blob under
      `key` left every present blob of `read` in place. */
  lemma KeptOn(s: Store, s': Store, read: set<Id>, key: Id, id: Id, dataId: Id)
    requires read <= s.Keys && key !in read && id !in read && dataId !in read
    requires s'.Keys == s.Keys - {id, dataId}
    requires forall k :: k in s' && k != key ==> s'[k] == s[k]
    ensures forall k :: k in read ==> k in s && k in s' && s'[k] == s[k]
  {
  }

  /** A path that resolved to a directory still does after a write that
      left in place every blob read to resolve it; the root path, after any
      write that left the root's table readable. */
  lemma ResolveKept(s: Store, s': Store, q: Path, dir: Id)
    requires Resolve(s, q) == Ok(Some(dir))
    requires q.parts == [] ==> EntriesOf(s', ROOT_ID).Ok?
    requires q.parts != [] ==> forall k :: k in ResolveReads(s, q) ==> k in s && k in s' && s'[k] == s[k]
    ensures Resolve(s', q) == Ok(Some(dir))
  {
    if q.parts == [] {
      ResolveRoot(s, q);
      ResolveRoot(s', q);
    } else {
      ResolveReadsPresent(s, q);
      assert Agree(s, s', ResolveReads(s, q));
      ResolveFrame(s, s', q);
    }
  }

  /** `mkdir` leaves the parent resolving to the same directory. */
  lemma MkdirKeepsParent(s: Store, p: Path, newId: Id, newDataId: Id, now: Time, parent: Id)
    requires Resolve(s, Parent(p)) == Ok(Some(parent)) && parent != ""
    requires EntriesOf(s, parent).Ok?
    requires FreshIds(s, newId, newDataId)
    requires TableOffPath(s, Parent(p), parent)
    ensures MkdirStep(s, p, newId, newDataId, now) == MkdirWrites(s, parent, Name(p), newId, newDataId, now)
    ensures Resolve(MkdirStep(s, p, newId, newDataId, now).store, Parent(p)) == Ok(Some(parent))
  {
    MkdirEffect(s, parent, Name(p), newId, newDataId, now);
    var s' := MkdirWrites(s, parent, Name(p), newId, newDataId, now).store;
    if Parent(p).parts == [] {
      ResolveRoot(s, Parent(p));
      assert parent == ROOT_ID;
    } else {
      ResolveReadsPresent(s, Parent(p));
    }
    ResolveKept(s, s', Parent(p), parent);
  }

  /** After a successful `mkdir` the new path resolves to the new identifier,
      `stat` reports the new directory, `listdir` of the new path is empty,
      and `listdir` of the parent lists the new name last unless it was
      already there. */
  lemma MkdirVisible(s: Store, p: Path, newId: Id, newDataId: Id, now: Time, parent: Id)
    requires WellFormed(p) && p.parts != []
    requires Resolve(s, Parent(p)) == Ok(Some(parent)) && parent != ""
    requires EntriesOf(s, parent).Ok?
    requires FreshIds(s, newId, newDataId)
    requires TableOffPath(s, Parent(p), parent)
    ensures var s' := MkdirStep(s, p, newId, newDataId, now).store;
      && Resolve(s', p) == Ok(Some(newId))
      && StatOf(s', p) == Ok(Some(FromInode(newId, NewEmpty(newDataId, |EMPTY_TEXT|, DIR_MODE, now))))
      && ListdirOf(s', p) == Ok([])
      && var names := Names(EntriesOf(s, parent).value);
         ListdirOf(s', Parent(p)) == Ok(if Name(p) in names then names else names + [Name(p)])
  {
    MkdirKeepsParent(s, p, newId, newDataId, now, parent);
    MkdirEffect(s, parent, Name(p), newId, newDataId, now);
    var s' := MkdirStep(s, p, newId, newDataId, now).store;
    var t := EntriesOf(s, parent).value;
    JoinParentName(p);
    ResolveJoin(s', Parent(p), Name(p));
    PutLookup(t, Name(p), newId, Name(p));
    PutNames(t, Name(p), newId);
    assert Resolve(s', p) == Ok(Some(newId));
    assert InodeAt(s', newId) == Ok(NewEmpty(newDataId, |EMPTY_TEXT|, DIR_MODE, now));
  }

  // ---------------------------------------------------------------------
  // unlink

  /** The deletions of `unlink` succeed when the parent's table holds the
      name, remove exactly the target's record and data blob, and rewrite
      only the parent's table, which loses that name and only that name. */
  lemma UnlinkEffect(s: Store, id: Id, parent: Id, inode: Inode, name: string)
    requires EntriesOf(s, parent).Ok? && Lookup(EntriesOf(s, parent).value, name) == Some(id)
    requires id in s && inode.dataId in s && inode.dataId != id
    requires id !in DirReads(s, parent) && inode.dataId !in DirReads(s, parent)
    ensures UnlinkWrites(s, id, parent, inode, name).result == Ok(())
    ensures var s' := UnlinkWrites(s, id, parent, inode, name).store;
            var t := EntriesOf(s, parent).value;
      && s'.Keys == s.Keys - {id, inode.dataId}
      && InodeAt(s', parent) == InodeAt(s, parent)
      && EntriesOf(s', parent) == Ok(Remove(t, name))
      && (forall k :: k in s' && k != TableKey(s, parent) ==> s'[k] == s[k])
      && (Unique(t) ==> |Remove(t, name)| == |t| - 1)
  {
    var t := EntriesOf(s, parent).value;
    var s2 := s - {inode.dataId} - {id};
    var key := TableKey(s, parent);
    DirReadsOfDir(s, parent);
    assert s2[parent] == s[parent] && s2[key] == s[key];
    assert Agree(s, s2, DirReads(s, parent));
    EntriesOfFrame(s, s2, parent);
    InodeAtFrame(s, s2, parent);
    RemoveEntryEffect(s2, parent, name);
    var s3 := RemoveEntry(s2, parent, name).value;
    InodeAtFrame(s, s3, parent);
    if Unique(t) {
      LookupIn(t, name);
      RemoveOne(t, name);
    }
  }

  /** `unlink` of a readable directory that still has entries raises
      "directory not empty" and deletes nothing. */
  lemma UnlinkNotEmpty(s: Store, p: Path, id: Id, inode: Inode, t: Table)
    requires Resolve(s, p) == Ok(Some(id)) && id != ""
    requires Resolve(s, Parent(p)).Ok? && Resolve(s, Parent(p)).value.Some?
    requires InodeAt(s, id) == Ok(inode) && inode.IsDir()
    requires EntriesOf(s, id) == Ok(t) && |t| > 0
    ensures UnlinkStep(s, p) == Step(s, Err(DirectoryNotEmpty))
  {
  }

  /** What passing the checks of `unlink` tells about the parent's table. */
  lemma UnlinkChecksEntry(s: Store, p: Path)
    requires WellFormed(p) && p.parts != []
    requires UnlinkChecks(s, p).Ok?
    ensures var (id, parent, inode) := UnlinkChecks(s, p).value;
      && EntriesOf(s, parent).Ok? && Lookup(EntriesOf(s, parent).value, Name(p)) == Some(id)
      && id in s
  {
    JoinParentName(p);
    ResolveJoin(s, Parent(p), Name(p));
  }

  /** `unlink` leaves the parent resolving to the same directory, when the
      deleted blobs are not on the way to it. */
  lemma UnlinkKeepsParent(s: Store, p: Path, id: Id, parent: Id, inode: Inode)
    requires WellFormed(p) && p.parts != []
    requires UnlinkChecks(s, p) == Ok((id, parent, inode))
    requires inode.dataId != id && inode.dataId in s
    requires id !in DirReads(s, parent) && inode.dataId !in DirReads(s, parent)
    requires id !in ResolveReads(s, Parent(p)) && inode.dataId !in ResolveReads(s, Parent(p))
    requires TableOffPath(s, Parent(p), parent)
    ensures UnlinkStep(s, p) == UnlinkWrites(s, id, parent, inode, Name(p))
    ensures Resolve(UnlinkStep(s, p).store, Parent(p)) == Ok(Some(parent))
  {
    UnlinkChecksEntry(s, p);
    UnlinkEffect(s, id, parent, inode, Name(p));
    var s' := UnlinkWrites(s, id, parent, inode, Name(p)).store;
    if Parent(p).parts == [] {
      ResolveRoot(s, Parent(p));
      assert parent == ROOT_ID;
    } else {
      ResolveReadsPresent(s, Parent(p));
      KeptOn(s, s', ResolveReads(s, Parent(p)), TableKey(s, parent), id, inode.dataId);
    }
    ResolveKept(s, s', Parent(p), parent);
  }

  /** After a successful `unlink` the name no longer resolves, so `stat` of
      it gives `None`, and `listdir` of the parent lists the remaining names
      in their old order. */
  lemma UnlinkGone(s: Store, p: Path, id: Id, parent: Id, inode: Inode)
    requires WellFormed(p) && p.parts != []
    requires UnlinkChecks(s, p) == Ok((id, parent, inode))
    requires inode.dataId != id && inode.dataId in s
    requires id !in DirReads(s, parent) && inode.dataId !in DirReads(s, parent)
    requires id !in ResolveReads(s, Parent(p)) && inode.dataId !in ResolveReads(s, Parent(p))
    requires TableOffPath(s, Parent(p), parent)
    ensures UnlinkStep(s, p).result == Ok(())
    ensures var s' := UnlinkStep(s, p).store;
      && Resolve(s', p) == Ok(None)
      && StatOf(s', p) == Ok(None)
      && (parent != "" ==> ListdirOf(s', Parent(p)) == Ok(Names(Remove(EntriesOf(s, parent).value, Name(p)))))
  {
    UnlinkKeepsParent(s, p, id, parent, inode);
    UnlinkChecksEntry(s, p);
    UnlinkEffect(s, id, parent, inode, Name(p));
    var s' := UnlinkStep(s, p).store;
    var t := EntriesOf(s, parent).value;
    ResolveJoin(s', Parent(p), Name(p));
    RemoveLookup(t, Name(p), Name(p));
  }

  /** `unlink` of the root path on a filesystem whose root is empty passes
      every check (the root is its own parent), deletes the root's table and
      record, and only then fails reading the root record to remove the entry
      "" from it: the store is left without a root. */
  lemma UnlinkRoot(s: Store, p: Path)
    requires p.parts == []
    requires EntriesOf(s, ROOT_ID) == Ok(EMPTY)
    requires InodeAt(s, ROOT_ID).value.dataId != ROOT_ID
    ensures UnlinkStep(s, p) ==
      Step(s - {InodeAt(s, ROOT_ID).value.dataId, ROOT_ID}, Err(MissingBlob))
  {
    ResolveRoot(s, p);
    var inode := InodeAt(s, ROOT_ID).value;
    assert UnlinkChecks(s, p) == Ok((ROOT_ID, ROOT_ID, inode));
    assert s - {inode.dataId} - {ROOT_ID} == s - {inode.dataId, ROOT_ID};
  }

  // ---------------------------------------------------------------------
  // chmod

  /** A successful `chmod` rewrites only the target's record: the low byte of
      its mode is the new one, the type bits and the rest are kept, `ctime` is
      the time of the call and every other field is unchanged. */
  lemma ChmodEffect(s: Store, p: Path, m: int, now: Time, id: Id, inode: Inode)
    requires Resolve(s, p) == Ok(Some(id)) && id != ""
    requires InodeAt(s, id) == Ok(inode)
    ensures ChmodStep(s, p, m, now).Ok?
    ensures var s' := ChmodStep(s, p, m, now).value;
      && s'.Keys == s.Keys
      && (forall k :: k in s && k != id ==> s'[k] == s[k])
      && InodeAt(s', id) == Ok(inode.(mode := ChmodMode(inode.mode, m), ctime := now))
      && InodeAt(s', id).value.mode % 256 == m % 256
      && InodeAt(s', id).value.IsDir() == inode.IsDir()
  {
    assert Encodable(inode);
  }

  /** `chmod` keeps every record's type and data identifier, so every path
      resolves afterwards as it did before, and `stat` reports the new mode. */
  lemma ChmodKeepsPaths(s: Store, p: Path, m: int, now: Time, q: Path)
    requires ChmodStep(s, p, m, now).Ok?
    ensures Resolve(ChmodStep(s, p, m, now).value, q) == Resolve(s, q)
    ensures var s' := ChmodStep(s, p, m, now).value;
      && StatOf(s', p).Ok? && StatOf(s', p).value.Some?
      && StatOf(s', p).value.value.mode % 256 == m % 256
      && Kind(StatOf(s', p).value.value.mode) == Kind(StatOf(s, p).value.value.mode)
      && StatOf(s', p).value.value.ctime == now
  {
    var id := Resolve(s, p).value.value;
    var inode := InodeAt(s, id).value;
    ChmodEffect(s, p, m, now, id, inode);
    var s' := ChmodStep(s, p, m, now).value;
    forall x ensures EntriesOf(s', x) == EntriesOf(s, x) {
      assert InodeAt(s', x).Ok? <==> InodeAt(s, x).Ok?;
      if InodeAt(s, x).Ok? {
        assert InodeAt(s', x).value.IsDir() == InodeAt(s, x).value.IsDir();
        assert InodeAt(s', x).value.dataId == InodeAt(s, x).value.dataId;
      } else {
        assert x != id;
      }
    }
    SameEntriesSamePaths(s, s', q);
    SameEntriesSamePaths(s, s', p);
  }

  lemma {:induction false} SameEntriesWalk(s: Store, s': Store, entries: Table, parts: seq<string>)
    requires forall x :: EntriesOf(s', x) == EntriesOf(s, x)
    ensures WalkParts(s', entries, parts) == WalkParts(s, entries, parts)
    decreases |parts|
  {
    if parts != [] {
      match Lookup(entries, parts[0]) {
        case None =>
        case Some(c) =>
          if EntriesOf(s, c).Ok? {
            SameEntriesWalk(s, s', EntriesOf(s, c).value, parts[1..]);
          }
      }
    }
  }

  /** Resolution sees the store only through directory tables. */
  lemma SameEntriesSamePaths(s: Store, s': Store, q: Path)
    requires forall x :: EntriesOf(s', x) == EntriesOf(s, x)
    ensures Resolve(s', q) == Resolve(s, q)
  {
    if EntriesOf(s, ROOT_ID).Ok? {
      SameEntriesWalk(s, s', EntriesOf(s, ROOT_ID).value, Parent(q).parts);
    }
  }

  // ---------------------------------------------------------------------
  // walk

  predicate IsDirId(s: Store, id: Id) {
    InodeAt(s, id).Ok? && InodeAt(s, id).value.IsDir()
  }

  /** The tests the classification applies to a child's identifier. */
  function DirTest(s: Store): Id -> bool {
    id => IsDirId(s, id)
  }

  function OtherTest(s: Store): Id -> bool {
    id => !IsDirId(s, id)
  }

  function ReadableTest(s: Store): Id -> bool {
    id => InodeAt(s, id).Ok?
  }

  /** The names of the entries naming directories, in table order. */
  function DirNames(s: Store, t: Table): seq<string> {
    NamesWhere(t, DirTest(s))
  }

  /** The names of the other entries, in table order. */
  function OtherNames(s: Store, t: Table): seq<string> {
    NamesWhere(t, OtherTest(s))
  }

  /** Every entry's record can be read. */
  predicate AllReadable(s: Store, t: Table) {
    AllIds(t, ReadableTest(s))
  }

  lemma ClassifySnoc(s: Store, init: Table, last: (string, string))
    ensures Classify(s, init + [last]) ==
      if Classify(s, init).Err? then Err(Classify(s, init).error)
      else if InodeAt(s, last.1).Err? then Err(InodeAt(s, last.1).error)
      else if InodeAt(s, last.1).value.IsDir() then Ok((Classify(s, init).value.0 + [last.0], Classify(s, init).value.1))
      else Ok((Classify(s, init).value.0, Classify(s, init).value.1 + [last.0]))
  {
    var t := init + [last];
    assert t[..|t| - 1] == init && t[|t| - 1] == last;
  }

  /** The classification loop succeeds exactly when every child's record can
      be read, and then splits the table's names into directories and the
      rest, each in table order. */
  lemma {:induction false} ClassifySplit(s: Store, t: Table)
    ensures Classify(s, t).Ok? <==> AllReadable(s, t)
    ensures Classify(s, t).Ok? ==> Classify(s, t).value == (DirNames(s, t), OtherNames(s, t))
    decreases |t|
  {
    if t == [] {
      assert DirNames(s, t) == [] && OtherNames(s, t) == [];
    } else {
      var init := t[..|t| - 1];
      var last := t[|t| - 1];
      assert init + [last] == t;
      ClassifySplit(s, init);
      ClassifySnoc(s, init, last);
      NamesWhereSnoc(init, DirTest(s), last);
      NamesWhereSnoc(init, OtherTest(s), last);
      AllIdsSnoc(init, ReadableTest(s), last);
      assert DirTest(s)(last.1) == IsDirId(s, last.1);
      assert OtherTest(s)(last.1) == !IsDirId(s, last.1);
      assert ReadableTest(s)(last.1) == InodeAt(s, last.1).Ok?;
      if Classify(s, t).Ok? {
        var split := Classify(s, init).value;
        assert split == (DirNames(s, init), OtherNames(s, init));
        if IsDirId(s, last.1) {
          assert Classify(s, t).value == (split.0 + [last.0], split.1);
          assert DirNames(s, t) == DirNames(s, init) + [last.0];
          assert OtherNames(s, t) == OtherNames(s, init) + [] == OtherNames(s, init);
        } else {
          assert Classify(s, t).value == (split.0, split.1 + [last.0]);
          assert DirNames(s, t) == DirNames(s, init) + [] == DirNames(s, init);
          assert OtherNames(s, t) == OtherNames(s, init) + [last.0];
        }
      }
    }
  }

  /** The loop over a table's entries stops at the first unreadable child:
      once a prefix has raised, the rest is not read. */
  lemma {:induction false} ClassifyStops(s: Store, t: Table, k: nat)
    requires k <= |t| && Classify(s, t[..k]).Err?
    ensures Classify(s, t) == Classify(s, t[..k])
    decreases |t| - k
  {
    if k < |t| {
      var init := t[..|t| - 1];
      assert init[..k] == t[..k];
      ClassifyStops(s, init, k);
    } else {
      assert t[..k] == t;
    }
  }

  /** Every name of a table is a directory name or another name, and no name
      is both. */
  lemma SplitPartition(s: Store, t: Table)
    ensures multiset(DirNames(s, t)) + multiset(OtherNames(s, t)) == multiset(Names(t))
  {
    NamesWherePartition(t, DirTest(s), OtherTest(s));
  }

  /** The triple for a path is there exactly when the path resolves to a
      directory whose table and children's records can be read, and holds
      the directory and other names of that table in table order. */
  lemma ListingSpec(s: Store, p: Path)
    ensures ListingOf(s, p).Ok? <==>
      && Resolve(s, p).Ok? && Truthy(Resolve(s, p).value)
      && EntriesOf(s, Resolve(s, p).value.value).Ok?
      && AllReadable(s, EntriesOf(s, Resolve(s, p).value.value).value)
    ensures ListingOf(s, p).Ok? ==>
      var t := EntriesOf(s, Resolve(s, p).value.value).value;
      ListingOf(s, p).value == Listing(p, DirNames(s, t), OtherNames(s, t))
  {
    if Resolve(s, p).Ok? && Truthy(Resolve(s, p).value) && EntriesOf(s, Resolve(s, p).value.value).Ok? {
      ClassifySplit(s, EntriesOf(s, Resolve(s, p).value.value).value);
    }
  }

  /** `q` is `p` or lies under it. */
  predicate Below(p: Path, q: Path) {
    q.absolute == p.absolute && IsPrefix(p.parts, q.parts)
  }

  predicate AllBelow(p: Path, items: seq<Listing>) {
    forall i :: 0 <= i < |items| ==> Below(p, items[i].path)
  }

  lemma BelowJoinTrans(p: Path, n: string, items: seq<Listing>)
    requires AllBelow(Join(p, n), items)
    ensures AllBelow(p, items)
  {
    var q := Join(p, n);
    assert Below(p, q);
    forall i | 0 <= i < |items| ensures Below(p, items[i].path) {
      var r := items[i].path.parts;
      assert r[..|q.parts|] == q.parts;
      assert r[..|p.parts|] == r[..|q.parts|][..|p.parts|];
    }
  }

  /** One more subdirectory walked after a prefix that did not raise. */
  lemma WalkChildrenNext(s: Store, p: Path, names: seq<string>, i: nat, topdown: bool, depth: nat)
    requires i < |names| && WalkChildren(s, p, names[..i], topdown, depth).error.None?
    ensures var sub := WalkOf(s, Join(p, names[i]), topdown, depth);
      WalkChildren(s, p, names[..i + 1], topdown, depth)
        == Trace(WalkChildren(s, p, names[..i], topdown, depth).items + sub.items, sub.error)
  {
    assert names[..i + 1][..i] == names[..i];
  }

  /** The loop over the subdirectories stops at the first exception: once a
      prefix of the names has raised, the rest are not walked. */
  lemma {:induction false} WalkChildrenStops(s: Store, p: Path, names: seq<string>, k: nat, topdown: bool, depth: nat)
    requires k <= |names|
    requires WalkChildren(s, p, names[..k], topdown, depth).error.Some?
    ensures WalkChildren(s, p, names, topdown, depth) == WalkChildren(s, p, names[..k], topdown, depth)
    decreases |names| - k
  {
    if k < |names| {
      var init := names[..|names| - 1];
      assert init[..k] == names[..k];
      WalkChildrenStops(s, p, init, k, topdown, depth);
    } else {
      assert names[..k] == names;
    }
  }

  // WalkBelow, WalkBefore and WalkAfter each follow the three mutually
  // recursive functions of the walk: the `WalkFrom…` and `WalkChildren…`
  // (and `WalkListedAfter`) lemmas beside them are the induction cases of
  // the one property, stated for `WalkFrom` and `WalkChildren`.

  /** Every triple `walk(p)` yields is for `p` or a path under it. */
  lemma {:induction false} WalkBelow(s: Store, p: Path, topdown: bool, depth: nat)
    ensures AllBelow(p, WalkOf(s, p, topdown, depth).items)
    decreases depth, 1
  {
    if depth > 0 {
      WalkFromBelow(s, p, ListingOf(s, p), topdown, depth);
    }
  }

  lemma {:induction false} WalkFromBelow(s: Store, p: Path, listing: Result<Listing, Error>, topdown: bool, depth: nat)
    requires depth > 0 && (listing.Ok? ==> listing.value.path == p)
    ensures AllBelow(p, WalkFrom(s, p, listing, topdown, depth).items)
    decreases depth, 0
  {
    if listing.Ok? {
      var here := listing.value;
      WalkChildrenBelow(s, p, here.dirs, topdown, depth - 1);
      assert Below(p, here.path);
    }
  }

  lemma {:induction false} WalkChildrenBelow(s: Store, p: Path, names: seq<string>, topdown: bool, depth: nat)
    ensures AllBelow(p, WalkChildren(s, p, names, topdown, depth).items)
    decreases depth, 2, |names|
  {
    if names != [] {
      var n := names[|names| - 1];
      WalkChildrenBelow(s, p, names[..|names| - 1], topdown, depth);
      WalkBelow(s, Join(p, n), topdown, depth);
      BelowJoinTrans(p, n, WalkOf(s, Join(p, n), topdown, depth).items);
    }
  }

  /** `p` and `q` lie under each other only when they are the same path. */
  lemma BelowAntisym(p: Path, q: Path)
    requires Below(p, q) && Below(q, p)
    ensures p == q
  {
    assert p.parts == q.parts[..|p.parts|] == q.parts;
  }

  /** A directory strictly between `p` and a path found in the walk of the
      subdirectory `p / n` lies under `p / n`. */
  lemma BetweenChild(p: Path, n: string, q: Path, x: Path)
    requires Below(p, q) && q != p && Below(q, x) && Below(Join(p, n), x)
    ensures Below(Join(p, n), q)
  {
    if n != "" {
      var j := Join(p, n);
      assert |q.parts| != |p.parts| by {
        if |q.parts| == |p.parts| {
          BelowAntisym(p, q);
        }
      }
      assert q.parts[..|j.parts|] == x.parts[..|q.parts|][..|j.parts|] == x.parts[..|j.parts|];
    }
  }

  /** The paths of a run of triples, in order. */
  function PathsOf(items: seq<Listing>): (r: seq<Path>)
    ensures |r| == |items| && forall i {:trigger r[i]} :: 0 <= i < |items| ==> r[i] == items[i].path
  {
    if items == [] then [] else [items[0].path] + PathsOf(items[1..])
  }

  lemma PathsOfAppend(a: seq<Listing>, b: seq<Listing>)
    ensures PathsOf(a + b) == PathsOf(a) + PathsOf(b)
  {
  }

  /** Top-down order of a walk under `p`: for every yielded path, every
      directory from `p` (or, when `own` is false, from below `p`) down to it
      has had its own triple yielded at that position or earlier. */
  ghost predicate AncestorsBefore(p: Path, items: seq<Listing>, own: bool) {
    forall j, q {:trigger Below(q, items[j].path)} :: 0 <= j < |items| && Below(p, q) && (own || q != p) && Below(q, items[j].path) ==>
      q in PathsOf(items[..j + 1])
  }

  /** Bottom-up order, for a walk that did not raise: the same directories
      have their triples yielded at that position or later. */
  ghost predicate AncestorsAfter(p: Path, tr: Trace, own: bool) {
    tr.error.None? ==>
      forall j, q {:trigger Below(q, tr.items[j].path)} ::
        0 <= j < |tr.items| && Below(p, q) && (own || q != p) && Below(q, tr.items[j].path) ==>
          q in PathsOf(tr.items[j..])
  }

  /** Top-down, `Around` puts the directory's own triple in front of those
      of its subtrees. */
  lemma OwnFirst(p: Path, here: Listing, trace: Trace)
    requires here.path == p && AncestorsBefore(p, trace.items, false)
    ensures AncestorsBefore(p, Around(here, trace, true).items, true)
  {
    var below := trace.items;
    var items := [here] + below;
    assert Around(here, trace, true).items == items;
    forall j, q | 0 <= j < |items| && Below(p, q) && Below(q, items[j].path)
      ensures q in PathsOf(items[..j + 1])
    {
      assert items[..j + 1] == [here] + below[..j];
      PathsOfAppend([here], below[..j]);
      if q != p {
        if j == 0 {
          BelowAntisym(p, q);
        }
        assert items[j] == below[j - 1];
        assert below[..j - 1 + 1] == below[..j];
      }
    }
  }

  /** Bottom-up, when the subtrees did not raise, `Around` puts the
      directory's own triple after theirs. */
  lemma OwnLast(p: Path, here: Listing, trace: Trace)
    requires here.path == p && AncestorsAfter(p, trace, false)
    ensures AncestorsAfter(p, Around(here, trace, false), true)
  {
    if trace.error.None? {
      var below := trace.items;
      var items := below + [here];
      assert Around(here, trace, false).items == items;
      var m := |below|;
      forall j, q | 0 <= j < |items| && Below(p, q) && Below(q, items[j].path)
        ensures q in PathsOf(items[j..])
      {
        assert items[j..] == below[j..] + [here];
        PathsOfAppend(below[j..], [here]);
        if q != p {
          if j == m {
            BelowAntisym(p, q);
          }
          assert items[j] == below[j];
        }
      }
    }
  }

  /** The triples of one more subtree `p / n` after those of the earlier
      ones, top-down. */
  lemma SubtreeBefore(p: Path, n: string, prev: seq<Listing>, sub: seq<Listing>)
    requires AncestorsBefore(p, prev, false)
    requires AncestorsBefore(Join(p, n), sub, true) && AllBelow(Join(p, n), sub)
    ensures AncestorsBefore(p, prev + sub, false)
  {
    var items := prev + sub;
    var m := |prev|;
    forall j, q | 0 <= j < |items| && Below(p, q) && q != p && Below(q, items[j].path)
      ensures q in PathsOf(items[..j + 1])
    {
      if j < m {
        assert items[..j + 1] == prev[..j + 1];
        assert items[j] == prev[j];
      } else {
        assert items[..j + 1] == prev + sub[..j - m + 1];
        PathsOfAppend(prev, sub[..j - m + 1]);
        assert items[j] == sub[j - m];
        BetweenChild(p, n, q, items[j].path);
      }
    }
  }

  /** The same, bottom-up. */
  lemma SubtreeAfter(p: Path, n: string, prevTrace: Trace, subTrace: Trace)
    requires prevTrace.error.None? && AncestorsAfter(p, prevTrace, false)
    requires AncestorsAfter(Join(p, n), subTrace, true) && AllBelow(Join(p, n), subTrace.items)
    ensures AncestorsAfter(p, Trace(prevTrace.items + subTrace.items, subTrace.error), false)
  {
    if subTrace.error.None? {
      var prev := prevTrace.items;
      var sub := subTrace.items;
      var items := prev + sub;
      var m := |prev|;
      forall j, q | 0 <= j < |items| && Below(p, q) && q != p && Below(q, items[j].path)
        ensures q in PathsOf(items[j..])
      {
        if j < m {
          assert items[j..] == prev[j..] + sub;
          PathsOfAppend(prev[j..], sub);
          assert items[j] == prev[j];
        } else {
          assert items[j..] == sub[j - m..];
          assert items[j] == sub[j - m];
          BetweenChild(p, n, q, items[j].path);
        }
      }
    }
  }

  /** `walk(p, topdown=True)` yields every directory before what lies under
      it; `walk(p, topdown=False)`, when it does not raise, yields every
      directory after what lies under it.  A path the walk reaches twice
      (through an entry named "" or a repeated subdirectory) is yielded
      twice, so the order is stated for some triple of each directory. */
  lemma WalkOrder(s: Store, p: Path, topdown: bool, depth: nat)
    ensures var tr := WalkOf(s, p, topdown, depth);
      && (topdown ==> AncestorsBefore(p, tr.items, true))
      && (!topdown ==> AncestorsAfter(p, tr, true))
  {
    if topdown {
      WalkBefore(s, p, depth);
    } else {
      WalkAfter(s, p, depth);
    }
  }

  /** The top-down half of `WalkOrder`, by induction on the nesting of the
      generators together with the two lemmas below, which are its cases
      for `WalkFrom` and `WalkChildren`. */
  lemma {:induction false} WalkBefore(s: Store, p: Path, depth: nat)
    ensures AncestorsBefore(p, WalkOf(s, p, true, depth).items, true)
    decreases depth, 1
  {
    if depth > 0 {
      WalkFromBefore(s, p, ListingOf(s, p), depth);
    }
  }

  lemma {:induction false} WalkFromBefore(s: Store, p: Path, listing: Result<Listing, Error>, depth: nat)
    requires depth > 0 && (listing.Ok? ==> listing.value.path == p)
    ensures AncestorsBefore(p, WalkFrom(s, p, listing, true, depth).items, true)
    decreases depth, 0
  {
    if listing.Ok? {
      var here := listing.value;
      WalkChildrenBefore(s, p, here.dirs, depth - 1);
      OwnFirst(p, here, WalkChildren(s, p, here.dirs, true, depth - 1));
    }
  }

  /** Top-down, the walks of the subdirectories one after another. */
  lemma {:induction false} WalkChildrenBefore(s: Store, p: Path, names: seq<string>, depth: nat)
    ensures AncestorsBefore(p, WalkChildren(s, p, names, true, depth).items, false)
    decreases depth, 2, |names|
  {
    if names != [] {
      var init := names[..|names| - 1];
      var n := names[|names| - 1];
      var prev := WalkChildren(s, p, init, true, depth);
      WalkChildrenBefore(s, p, init, depth);
      if prev.error.None? {
        var sub := WalkOf(s, Join(p, n), true, depth);
        WalkBefore(s, Join(p, n), depth);
        WalkBelow(s, Join(p, n), true, depth);
        SubtreeBefore(p, n, prev.items, sub.items);
      }
    }
  }

  /** The bottom-up half of `WalkOrder`; the three lemmas below are its
      cases for `WalkFrom`, for a triple already read, and for
      `WalkChildren`. */
  lemma {:induction false} WalkAfter(s: Store, p: Path, depth: nat)
    ensures AncestorsAfter(p, WalkOf(s, p, false, depth), true)
    decreases depth, 2
  {
    if depth > 0 {
      WalkFromAfter(s, p, ListingOf(s, p), depth);
    }
  }

  lemma {:induction false} WalkFromAfter(s: Store, p: Path, listing: Result<Listing, Error>, depth: nat)
    requires depth > 0 && (listing.Ok? ==> listing.value.path == p)
    ensures AncestorsAfter(p, WalkFrom(s, p, listing, false, depth), true)
    decreases depth, 1
  {
    if listing.Ok? {
      var below := WalkChildren(s, p, listing.value.dirs, false, depth - 1);
      assert WalkFrom(s, p, listing, false, depth) == Around(listing.value, below, false);
      WalkListedAfter(s, p, listing.value, depth - 1);
    }
  }

  /** The bottom-up walk of a directory whose own triple was read, with
      `depth` generators left for its subdirectories. */
  lemma {:induction false} WalkListedAfter(s: Store, p: Path, here: Listing, depth: nat)
    requires here.path == p
    ensures AncestorsAfter(p, Around(here, WalkChildren(s, p, here.dirs, false, depth), false), true)
    decreases depth, 4
  {
    WalkChildrenAfter(s, p, here.dirs, depth);
    OwnLast(p, here, WalkChildren(s, p, here.dirs, false, depth));
  }

  /** Bottom-up, the walks of the subdirectories one after another. */
  lemma {:induction false} WalkChildrenAfter(s: Store, p: Path, names: seq<string>, depth: nat)
    ensures AncestorsAfter(p, WalkChildren(s, p, names, false, depth), false)
    decreases depth, 3, |names|
  {
    if names != [] {
      var init := names[..|names| - 1];
      var n := names[|names| - 1];
      var prev := WalkChildren(s, p, init, false, depth);
      WalkChildrenAfter(s, p, init, depth);
      if prev.error.None? {
        var sub := WalkOf(s, Join(p, n), false, depth);
        WalkAfter(s, Join(p, n), depth);
        WalkBelow(s, Join(p, n), false, depth);
        SubtreeAfter(p, n, prev, sub);
      }
    }
  }

  /** A walk that does not raise yields at least the path's own triple. */
  lemma WalkYields(s: Store, p: Path, topdown: bool, depth: nat)
    ensures WalkOf(s, p, topdown, depth).error.None? ==> |WalkOf(s, p, topdown, depth).items| > 0
  {
    if depth > 0 && ListingOf(s, p).Ok? {
      var here := ListingOf(s, p).value;
      assert WalkOf(s, p, topdown, depth) == Around(here, WalkChildren(s, p, here.dirs, topdown, depth - 1), topdown);
    }
  }

  /** The loop over the subdirectories, when it does not raise, yields at
      least one triple for each of them. */
  lemma {:induction false} WalkChildrenYields(s: Store, p: Path, names: seq<string>, topdown: bool, depth: nat)
    ensures var tr := WalkChildren(s, p, names, topdown, depth);
      tr.error.None? ==> |tr.items| >= |names|
  {
    if names != [] {
      var init := names[..|names| - 1];
      WalkChildrenYields(s, p, init, topdown, depth);
      WalkYields(s, Join(p, names[|names| - 1]), topdown, depth);
    }
  }

  /** Top-down, the first triple is the path's own; bottom-up, a walk that
      ends without an exception yields the path's own triple last. */
  lemma WalkOwnListing(s: Store, p: Path, topdown: bool, depth: nat)
    requires depth > 0 && ListingOf(s, p).Ok?
    ensures var tr := WalkOf(s, p, topdown, depth);
      && (topdown ==> |tr.items| > 0 && tr.items[0] == ListingOf(s, p).value)
      && (!topdown && tr.error.None? ==> |tr.items| > 0 && tr.items[|tr.items| - 1] == ListingOf(s, p).value)
  {
  }
}
