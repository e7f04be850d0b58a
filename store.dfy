/** The flat blob store under the filesystem and the record-level helpers of
    `EmuFS` that read and write it (emufs/fs.py: `_read_inode`,
    `_write_inode`, `_get_dir_entries`, `_add_dir_entry`,
    `_remove_dir_entry`).

    Every blob is addressed by the identifier it was written under (the
    physical name is the base64 of that identifier, an injective naming, so
    the store is keyed by the identifier itself).  Inode records and file
    contents are byte strings; a directory's data blob is kept as its decoded
    entry table. */
module Store {
  import opened Wrappers
  import opened Inodes
  import opened Tables

  type Id = string

  /** The reserved identifier of the root directory's inode. */
  const ROOT_ID: Id := "/"

  datatype Blob = Bytes(bytes: seq<Byte>) | Entries(table: Table)

  type Store = map<Id, Blob>

  /** Every way an operation of the filesystem or of a file handle fails. */
  datatype Error =
    | NoSuchEntry              // unlink / chmod of a path that does not resolve
    | NoSuchDirectory          // mkdir, listdir, walk, open: a directory does not resolve
    | NoSuchFile               // open without a creating mode of a missing path
    | AlreadyExists            // open in exclusive mode of a present path
    | DirectoryNotEmpty        // unlink of a directory with entries
    | NotADirectory            // the failed `assert inode.is_dir()`
    | ParentUnresolved         // the failed `assert parent_inode_id != None` in unlink
    | MissingBlob              // FileNotFoundError: no blob under the key
    | WrongBlobKind            // a table where bytes are read, or bytes where a table is
    | CorruptInode(CodecError) // from_bytes refused the record
    | Unencodable(CodecError)  // to_bytes refused the record
    | KeyMissing               // KeyError from `del entries[name]`
    | RecursionLimit           // walk nested deeper than the interpreter allows
    | InvalidMode              // open() refused the mode string
    | BlobExists               // open() in "x" mode of an existing data blob
    | NotReadable              // read on a stream not opened for reading
    | NotWritable              // write on a stream not opened for writing
    | StreamClosed             // read or write after the handle was exited
    | BadReadSize              // read(size) with a size below -1

  /** The errors reading the store can raise. */
  predicate ReadError(e: Error) {
    e.MissingBlob? || e.WrongBlobKind? || e.CorruptInode? || e.NotADirectory?
  }

  /** `_read_inode`: decode the record stored under `id`. */
  function InodeAt(s: Store, id: Id): (r: Result<Inode, Error>)
    ensures r.Err? ==> ReadError(r.error)
    ensures r.Ok? ==> id in s && s[id].Bytes? && FromBytes(s[id].bytes) == Ok(r.value)
    ensures id !in s ==> r == Err(MissingBlob)
  {
    if id !in s then Err(MissingBlob)
    else match s[id]
      case Entries(_) => Err(WrongBlobKind)
      case Bytes(b) =>
        match FromBytes(b)
        case Ok(i) => Ok(i)
        case Err(e) => Err(CorruptInode(e))
  }

  /** `_write_inode`: encode the record and store it under `id`. */
  function WithInode(s: Store, i: Inode, id: Id): (r: Result<Store, Error>)
    ensures r.Ok? <==> Encodable(i)
    ensures r.Ok? ==> r.value.Keys == s.Keys + {id}
    ensures r.Ok? ==> forall k :: k in s && k != id ==> r.value[k] == s[k]
    ensures r.Ok? ==> InodeAt(r.value, id) == Ok(i)
  {
    match ToBytes(i)
    case Err(e) => Err(Unencodable(e))
    case Ok(b) =>
      RoundTrip(i);
      Ok(s[id := Bytes(b)])
  }

  /** `loads(<data blob>.read_bytes())`: the table stored under `key`. */
  function TableAt(s: Store, key: Id): (r: Result<Table, Error>)
    ensures r.Ok? <==> key in s && s[key].Entries?
    ensures r.Ok? ==> r.value == s[key].table
  {
    if key !in s then Err(MissingBlob)
    else match s[key]
      case Bytes(_) => Err(WrongBlobKind)
      case Entries(t) => Ok(t)
  }

  /** `_get_dir_entries`: the table of directory `id`; reading it through an
      inode that is not a directory fails the `is_dir` assertion. */
  function EntriesOf(s: Store, id: Id): (r: Result<Table, Error>)
    ensures r.Err? ==> ReadError(r.error)
    ensures r.Ok? <==> InodeAt(s, id).Ok? && InodeAt(s, id).value.IsDir()
                       && TableAt(s, InodeAt(s, id).value.dataId).Ok?
    ensures InodeAt(s, id).Ok? && !InodeAt(s, id).value.IsDir() ==> r == Err(NotADirectory)
  {
    var inode :- InodeAt(s, id);
    if !inode.IsDir() then Err(NotADirectory)
    else TableAt(s, inode.dataId)
  }

  /** `_add_dir_entry`: `entries[name] = child` in directory `dir`'s table,
      written back under the same data key. */
  function AddEntry(s: Store, dir: Id, name: string, child: Id): (r: Result<Store, Error>)
    ensures r.Ok? <==> EntriesOf(s, dir).Ok?
    ensures r.Err? ==> r.error == EntriesOf(s, dir).error
    ensures r.Ok? ==> r.value.Keys == s.Keys
  {
    var inode :- InodeAt(s, dir);
    if !inode.IsDir() then Err(NotADirectory)
    else
      var t :- TableAt(s, inode.dataId);
      Ok(s[inode.dataId := Entries(Put(t, name, child))])
  }

  /** `_remove_dir_entry`: `del entries[name]` in directory `dir`'s table,
      which raises KeyError when the name is absent. */
  function RemoveEntry(s: Store, dir: Id, name: string): (r: Result<Store, Error>)
    ensures r.Ok? <==> EntriesOf(s, dir).Ok? && Lookup(EntriesOf(s, dir).value, name).Some?
    ensures EntriesOf(s, dir).Err? ==> r == Err(EntriesOf(s, dir).error)
    ensures EntriesOf(s, dir).Ok? && Lookup(EntriesOf(s, dir).value, name).None? ==> r == Err(KeyMissing)
    ensures r.Ok? ==> r.value.Keys == s.Keys
  {
    var inode :- InodeAt(s, dir);
    if !inode.IsDir() then Err(NotADirectory)
    else
      var t :- TableAt(s, inode.dataId);
      if Lookup(t, name).None? then Err(KeyMissing)
      else Ok(s[inode.dataId := Entries(Remove(t, name))])
  }

  /** The data key of directory `dir`, when its table can be read. */
  function TableKey(s: Store, dir: Id): Id
    requires InodeAt(s, dir).Ok?
  {
    InodeAt(s, dir).value.dataId
  }

  /** Adding an entry rewrites exactly the directory's table: the name maps to
      the child, every other name keeps its id, and no other blob changes. */
  lemma AddEntryEffect(s: Store, dir: Id, name: string, child: Id)
    requires EntriesOf(s, dir).Ok?
    ensures AddEntry(s, dir, name, child).Ok?
    ensures var s' := AddEntry(s, dir, name, child).value;
      && s'.Keys == s.Keys
      && (forall k :: k in s && k != TableKey(s, dir) ==> s'[k] == s[k])
      && s'[TableKey(s, dir)] == Entries(Put(EntriesOf(s, dir).value, name, child))
      && InodeAt(s', dir) == InodeAt(s, dir)
      && EntriesOf(s', dir) == Ok(Put(EntriesOf(s, dir).value, name, child))
  {
    var key := TableKey(s, dir);
    assert key != dir;
    var s' := AddEntry(s, dir, name, child).value;
    assert s'[dir] == s[dir];
    assert InodeAt(s', dir) == InodeAt(s, dir);
  }

  /** Adding an entry fails, and writes nothing, exactly when the directory's
      table cannot be read. */
  lemma AddEntryFails(s: Store, dir: Id, name: string, child: Id)
    requires EntriesOf(s, dir).Err?
    ensures AddEntry(s, dir, name, child) == Err(EntriesOf(s, dir).error)
  {
  }

  /** Removing a present entry rewrites exactly the directory's table, dropping
      that one name. */
  lemma RemoveEntryEffect(s: Store, dir: Id, name: string)
    requires EntriesOf(s, dir).Ok? && Lookup(EntriesOf(s, dir).value, name).Some?
    ensures RemoveEntry(s, dir, name).Ok?
    ensures var s' := RemoveEntry(s, dir, name).value;
      && s'.Keys == s.Keys
      && (forall k :: k in s && k != TableKey(s, dir) ==> s'[k] == s[k])
      && s'[TableKey(s, dir)] == Entries(Remove(EntriesOf(s, dir).value, name))
      && InodeAt(s', dir) == InodeAt(s, dir)
      && EntriesOf(s', dir) == Ok(Remove(EntriesOf(s, dir).value, name))
  {
    var key := TableKey(s, dir);
    assert key != dir;
    var s' := RemoveEntry(s, dir, name).value;
    assert s'[dir] == s[dir];
    assert InodeAt(s', dir) == InodeAt(s, dir);
  }

  /** Removing an absent name raises KeyError. */
  lemma RemoveEntryAbsent(s: Store, dir: Id, name: string)
    requires EntriesOf(s, dir).Ok? && Lookup(EntriesOf(s, dir).value, name).None?
    ensures RemoveEntry(s, dir, name) == Err(KeyMissing)
  {
  }
}
