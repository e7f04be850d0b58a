/** The file handle `EmuFileIO` of emufs/io.py.  Opening a path resolves it,
    creates the file's record and parent entry when the mode allows it, then
    opens the record's data blob with Python's `open()`; writing and reading
    go through that stream and keep the record's times and size up to date.

    The stream is modelled by the data key it was opened on, its cursor and
    what the mode lets it do; its contents are the bytes stored under that
    key, so every write is visible in the store at once (the `seek` that
    follows each write flushes Python's buffer). */
module FileIo {
  import opened Wrappers
  import opened Inodes
  import opened Tables
  import opened Paths
  import opened Store
  import opened Resolver
  import opened Facade
  import opened EmuFs

  /** `TYPE_FILE | 0o644`: the mode of a file created by opening it. */
  const FILE_MODE: nat := TYPE_FILE + PERM_644

  /** A record of mode `FILE_MODE` is a plain file. */
  lemma FileModeIsFile(i: Inode)
    requires i.mode == FILE_MODE
    ensures i.IsFile() && !i.IsDir()
  {
    assert FILE_MODE / 0x1000 == 8;
  }

  // ---------------------------------------------------------------------
  // Mode strings

  /** `exclusive = "x" in mode`; an exclusive mode is also a creating one. */
  predicate Exclusive(mode: string): (b: bool)
    ensures b ==> Creatable(mode)
  {
    'x' in mode
  }

  /** `creatable = "x" in mode | "w" in mode | "a" in mode`. */
  predicate Creatable(mode: string) {
    'x' in mode || 'w' in mode || 'a' in mode
  }

  /** Which of the four ways `open()` opens a file a mode asks for. */
  datatype OpenKind = Reading | Writing | Creating | Appending

  datatype OpenMode = OpenMode(kind: OpenKind, update: bool)

  /** The characters `open()` accepts in a mode. */
  const MODE_CHARS: string := "rwxab+t"

  predicate NoRepeats(mode: string) {
    forall i, j :: 0 <= i < j < |mode| ==> mode[i] != mode[j]
  }

  function KindCount(mode: string): nat {
    (if 'r' in mode then 1 else 0) + (if 'w' in mode then 1 else 0)
    + (if 'x' in mode then 1 else 0) + (if 'a' in mode then 1 else 0)
  }

  /** `open()`'s check of its mode: only known characters, none twice, not
      both text and binary, and exactly one of read, write, create and
      append; `+` adds the other direction. */
  function ParseMode(mode: string): (r: Result<OpenMode, Error>)
    ensures r.Err? ==> r.error == InvalidMode
    ensures (exists i :: 0 <= i < |mode| && mode[i] !in MODE_CHARS) ==> r.Err?
    ensures ('t' in mode && 'b' in mode) || (!Creatable(mode) && 'r' !in mode) ==> r.Err?
    ensures r.Ok? ==> NoRepeats(mode)
    ensures r.Ok? ==> (r.value.kind == Reading <==> 'r' in mode)
    ensures r.Ok? ==> (r.value.kind == Creating <==> Exclusive(mode))
    ensures r.Ok? ==> (r.value.kind != Reading <==> Creatable(mode))
    ensures r.Ok? ==> (r.value.update <==> '+' in mode)
  {
    if exists i :: 0 <= i < |mode| && mode[i] !in MODE_CHARS then Err(InvalidMode)
    else if !NoRepeats(mode) then Err(InvalidMode)
    else if 't' in mode && 'b' in mode then Err(InvalidMode)
    else if KindCount(mode) != 1 then Err(InvalidMode)
    else
      var kind := if 'r' in mode then Reading else if 'w' in mode then Writing
                  else if 'x' in mode then Creating else Appending;
      Ok(OpenMode(kind, '+' in mode))
  }

  /** On a mode `open()` accepts, `creatable` is "not a read mode", and an
      exclusive mode names none of the other kinds. */
  lemma ModeFlags(mode: string)
    requires ParseMode(mode).Ok?
    ensures Creatable(mode) <==> 'r' !in mode
    ensures Exclusive(mode) ==> 'r' !in mode && 'w' !in mode && 'a' !in mode
  {
    assert KindCount(mode) == 1;
  }

  // ---------------------------------------------------------------------
  // The stream

  /** The open data blob: its key, the cursor, and what the mode allows.  In
      append mode every write goes to the end whatever the cursor. */
  datatype Stream = Stream(dataId: Id, cursor: nat, readable: bool, writable: bool, append: bool)

  /** The bytes the stream reads and writes, when they are there. */
  predicate HasBytes(s: Store, key: Id) {
    key in s && s[key].Bytes?
  }

  /** `open(<blob>, mode)` once the mode is known good: reading needs the
      blob, writing empties or makes it, exclusive creation refuses an
      existing one, appending makes it when missing and starts at its end. */
  function OpenBlob(s: Store, key: Id, m: OpenMode): (r: Result<(Store, Stream), Error>)
    ensures r.Ok? ==> var (s', st) := r.value;
      && st.dataId == key && HasBytes(s', key)
      && s'.Keys == s.Keys + {key}
      && (forall k :: k in s && k != key ==> s'[k] == s[k])
      && (st.readable <==> m.kind == Reading || m.update)
      && (st.writable <==> m.kind != Reading || m.update)
      && (st.append <==> m.kind == Appending)
      && st.cursor == (if m.kind == Appending then |s'[key].bytes| else 0)
    ensures m.kind == Writing ==> r.Ok? && r.value.0[key] == Bytes([])
    ensures m.kind == Creating ==> (r.Ok? <==> key !in s)
    ensures m.kind == Creating && r.Ok? ==> r.value.0[key] == Bytes([])
    ensures m.kind == Reading ==> (r.Ok? <==> HasBytes(s, key)) && (r.Ok? ==> r.value.0 == s)
  {
    match m.kind
    case Reading =>
      if key !in s then Err(MissingBlob)
      else if s[key].Entries? then Err(WrongBlobKind)
      else Ok((s, Stream(key, 0, true, m.update, false)))
    case Writing =>
      Ok((s[key := Bytes([])], Stream(key, 0, m.update, true, false)))
    case Creating =>
      if key in s then Err(BlobExists)
      else Ok((s[key := Bytes([])], Stream(key, 0, m.update, true, false)))
    case Appending =>
      if key !in s then Ok((s[key := Bytes([])], Stream(key, 0, m.update, true, true)))
      else if s[key].Entries? then Err(WrongBlobKind)
      else Ok((s, Stream(key, |s[key].bytes|, m.update, true, true)))
  }

  /** `n` zero bytes: what a write past the end of a file leaves in the gap. */
  function Zeros(n: nat): (r: seq<Byte>)
    ensures |r| == n && forall i :: 0 <= i < n ==> r[i] == 0
  {
    seq(n, _ => 0)
  }

  /** The contents after writing `data` at `pos`: `data` replaces the bytes it
      covers and may extend the file; a gap before it reads as zeros. */
  function Overwrite(c: seq<Byte>, pos: nat, data: seq<Byte>): (r: seq<Byte>)
    ensures |r| == if pos + |data| > |c| then pos + |data| else |c|
    ensures r[pos..pos + |data|] == data
    ensures forall i :: 0 <= i < pos && i < |c| ==> r[i] == c[i]
    ensures forall i :: |c| <= i < pos ==> r[i] == 0
    ensures forall i :: pos + |data| <= i < |c| ==> r[i] == c[i]
  {
    var padded := if pos <= |c| then c else c + Zeros(pos - |c|);
    var r := padded[..pos] + data + (if pos + |data| <= |padded| then padded[pos + |data|..] else []);
    assert r[pos..pos + |data|] == data;
    r
  }

  /** `read(size)` from `pos`: everything to the end for a size of -1,
      otherwise at most `size` bytes; nothing at or past the end.  A binary
      stream refuses any other negative size before reading. */
  function ReadRange(c: seq<Byte>, pos: nat, size: int): (r: seq<Byte>)
    requires size >= -1
    ensures pos >= |c| ==> r == []
    ensures pos < |c| ==> pos + |r| <= |c| && r == c[pos..pos + |r|]
    ensures size >= 0 ==> |r| <= size
    ensures pos < |c| && (size < 0 || pos + size >= |c|) ==> pos + |r| == |c|
    ensures pos < |c| && 0 <= size && pos + size < |c| ==> |r| == size
  {
    if pos >= |c| then []
    else if size < 0 || pos + size >= |c| then c[pos..]
    else c[pos..pos + size]
  }

  // ---------------------------------------------------------------------
  // Opening

  /** The writes of an implicit creation: the new file's record, then the
      parent's entry.  No data blob is written here; `open()` makes it. */
  function CreateWrites(s: Store, parent: Id, name: string, newId: Id, newDataId: Id, now: Time): (r: Step<()>)
    ensures r.result.Ok? ==> r.store.Keys == s.Keys + {newId}
  {
    match WithInode(s, NewEmpty(newDataId, 0, FILE_MODE, now), newId)
    case Err(e) => Step(s, Err(e))
    case Ok(s1) =>
      match AddEntry(s1, parent, name, newId)
      case Err(e) => Step(s1, Err(e))
      case Ok(s2) => Step(s2, Ok(()))
  }

  /** Read the record of `id` and open its data blob. */
  function OpenRecord(s: Store, id: Id, mode: string): (r: Step<(Id, Stream)>)
    ensures r.result.Ok? ==> r.result.value.0 == id && InodeAt(s, id).Ok?
                             && r.result.value.1.dataId == InodeAt(s, id).value.dataId
    ensures InodeAt(s, id).Ok? && ParseMode(mode).Err? ==> r == Step(s, Err(InvalidMode))
  {
    match InodeAt(s, id)
    case Err(e) => Step(s, Err(e))
    case Ok(inode) =>
      match ParseMode(mode)
      case Err(e) => Step(s, Err(e))
      case Ok(m) =>
        match OpenBlob(s, inode.dataId, m)
        case Err(e) => Step(s, Err(e))
        case Ok((s', st)) => Step(s', Ok((id, st)))
  }

  /** `EmuFileIO(fs, path, mode)`, with the two uuid4 strings and the clock
      reading as parameters: the identifier of the file's record and the
      open stream. */
  function OpenStep(s: Store, p: Path, mode: string, newId: Id, newDataId: Id, now: Time): (r: Step<(Id, Stream)>)
    ensures Resolve(s, p).Err? ==> r == Step(s, Err(Resolve(s, p).error))
    ensures Resolve(s, p).Ok? && Truthy(Resolve(s, p).value) && Exclusive(mode) ==> r == Step(s, Err(AlreadyExists))
    ensures Resolve(s, p).Ok? && !Truthy(Resolve(s, p).value) && !Creatable(mode) ==> r == Step(s, Err(NoSuchFile))
    ensures (Resolve(s, p).Ok? && !Truthy(Resolve(s, p).value) && Creatable(mode)
             && Resolve(s, Parent(p)).Ok? && !Truthy(Resolve(s, Parent(p)).value))
            ==> r == Step(s, Err(NoSuchDirectory))
    ensures Resolve(s, p).Ok? && Truthy(Resolve(s, p).value) && !Exclusive(mode) ==> r == OpenRecord(s, Resolve(s, p).value.value, mode)
    ensures (Resolve(s, p).Ok? && !Truthy(Resolve(s, p).value) && Creatable(mode)
             && Resolve(s, Parent(p)).Ok? && Truthy(Resolve(s, Parent(p)).value))
            ==> var c := CreateWrites(s, Resolve(s, Parent(p)).value.value, Name(p), newId, newDataId, now);
                r == if c.result.Err? then Step(c.store, Err(c.result.error)) else OpenRecord(c.store, newId, mode)
  {
    match Resolve(s, p)
    case Err(e) => Step(s, Err(e))
    case Ok(found) =>
      if Exclusive(mode) && Truthy(found) then Step(s, Err(AlreadyExists))
      else if Truthy(found) then OpenRecord(s, found.value, mode)
      else if !Creatable(mode) then Step(s, Err(NoSuchFile))
      else
        match Resolve(s, Parent(p))
        case Err(e) => Step(s, Err(e))
        case Ok(parent) =>
          if !Truthy(parent) then Step(s, Err(NoSuchDirectory))
          else
            var c := CreateWrites(s, parent.value, Name(p), newId, newDataId, now);
            if c.result.Err? then Step(c.store, Err(c.result.error))
            else OpenRecord(c.store, newId, mode)
  }

  // ---------------------------------------------------------------------
  // Writing and reading

  /** The store, the stream and the result after a call on a handle. */
  datatype Outcome<T> = Outcome(store: Store, stream: Stream, result: Result<T, Error>)

  /** `write(data)` on the stream over the data blob: a read-only stream
      has no `write` and raises, then a closed one raises; otherwise the bytes replace those at the
      cursor (at the end in append mode) and the cursor ends just after
      them. */
  function StreamWrite(s: Store, st: Stream, closed: bool, data: seq<Byte>): (r: Result<(Store, Stream), Error>)
    ensures !st.writable ==> r == Err(NotWritable)
    ensures st.writable && closed ==> r == Err(StreamClosed)
    ensures r.Ok? ==> HasBytes(s, st.dataId) && HasBytes(r.value.0, st.dataId) && r.value.0.Keys == s.Keys
  {
    if !st.writable then Err(NotWritable)
    else if closed then Err(StreamClosed)
    else if st.dataId !in s then Err(MissingBlob)
    else if s[st.dataId].Entries? then Err(WrongBlobKind)
    else
      var before := s[st.dataId].bytes;
      var pos := if st.append then |before| else st.cursor;
      Ok((s[st.dataId := Bytes(Overwrite(before, pos, data))], st.(cursor := pos + |data|)))
  }

  /** `EmuFileIO.write(data)`: write through the stream, then stamp `mtime`
      and `ctime`, set `size` to the stream's length and write the record
      back. */
  function WriteStep(s: Store, st: Stream, closed: bool, id: Id, data: seq<Byte>, now: Time): (r: Outcome<()>)
    ensures !st.writable ==> r == Outcome(s, st, Err(NotWritable))
    ensures st.writable && closed ==> r == Outcome(s, st, Err(StreamClosed))
    ensures r.result.Ok? ==> r.store.Keys == s.Keys
  {
    match StreamWrite(s, st, closed, data)
    case Err(e) => Outcome(s, st, Err(e))
    case Ok((s1, st1)) =>
      match InodeAt(s1, id)
      case Err(e) => Outcome(s1, st1, Err(e))
      case Ok(inode) =>
        var updated := inode.UpdateModifiedTime(true, now).(size := |s1[st.dataId].bytes|);
        match WithInode(s1, updated, id)
        case Err(e) => Outcome(s1, st1, Err(e))
        case Ok(s2) => Outcome(s2, st1, Ok(()))
  }

  /** `read(size)`: stamp `atime` and write the record back first, then read
      from the stream.  A write-only stream has no `read` and raises; a
      readable one refuses a size below -1 and then a closed file. */
  function ReadStep(s: Store, st: Stream, closed: bool, id: Id, size: int, now: Time): (r: Outcome<seq<Byte>>)
    ensures r.result.Ok? ==> r.store.Keys == s.Keys && HasBytes(s, st.dataId)
    ensures r.result.Ok? ==> size >= -1 && st.readable && !closed
    ensures InodeAt(s, id).Err? ==> r == Outcome(s, st, Err(InodeAt(s, id).error))
  {
    match InodeAt(s, id)
    case Err(e) => Outcome(s, st, Err(e))
    case Ok(inode) =>
      match WithInode(s, inode.UpdateAccessedTime(now), id)
      case Err(e) => Outcome(s, st, Err(e))
      case Ok(s1) =>
        if !st.readable then Outcome(s1, st, Err(NotReadable))
        else if size < -1 then Outcome(s1, st, Err(BadReadSize))
        else if closed then Outcome(s1, st, Err(StreamClosed))
        else if st.dataId !in s1 then Outcome(s1, st, Err(MissingBlob))
        else if s1[st.dataId].Entries? then Outcome(s1, st, Err(WrongBlobKind))
        else
          var got := ReadRange(s1[st.dataId].bytes, st.cursor, size);
          Outcome(s1, st.(cursor := st.cursor + |got|), Ok(got))
  }

  // ---------------------------------------------------------------------
  // The handle object

  /** An `EmuFileIO`: the filesystem it belongs to, the identifier of the
      file's record, the open stream and whether `__exit__` has run. */
  class FileHandle {
    var fs: EmuFS
    var inodeId: Id
    var inner: Stream
    var closed: bool

    constructor(fs: EmuFS, inodeId: Id, inner: Stream)
      ensures this.fs == fs && this.inodeId == inodeId && this.inner == inner && !closed
    {
      this.fs := fs;
      this.inodeId := inodeId;
      this.inner := inner;
      this.closed := false;
    }

    /** `EmuFileIO.__init__`, reached through `EmuFS.open`: the store ends as
        `OpenStep` says, and on success the new handle holds the record's
        identifier and the stream. */
    static method Open(fs: EmuFS, p: Path, mode: string, newId: Id, newDataId: Id, now: Time)
      returns (r: Result<FileHandle, Error>)
      modifies fs
      ensures var step := OpenStep(old(fs.store), p, mode, newId, newDataId, now);
        && fs.store == step.store
        && (r.Ok? <==> step.result.Ok?)
        && (r.Err? ==> r.error == step.result.error)
        && (r.Ok? ==> fresh(r.value) && r.value.fs == fs && !r.value.closed
                      && (r.value.inodeId, r.value.inner) == step.result.value)
    {
      ghost var s0 := fs.store;
      var found := fs.ResolvePath(p);
      if found.Err? {
        return Err(found.error);
      }
      if Exclusive(mode) && Truthy(found.value) {
        return Err(AlreadyExists);
      }
      var id: Id;
      if Truthy(found.value) {
        id := found.value.value;
      } else {
        if !Creatable(mode) {
          return Err(NoSuchFile);
        }
        var parent := fs.ResolvePath(Parent(p));
        if parent.Err? {
          return Err(parent.error);
        }
        if !Truthy(parent.value) {
          return Err(NoSuchDirectory);
        }
        var w := fs.WriteInode(NewEmpty(newDataId, 0, FILE_MODE, now), newId);
        if w.Err? {
          return Err(w.error);
        }
        var a := fs.AddDirEntry(parent.value.value, Name(p), newId);
        if a.Err? {
          return Err(a.error);
        }
        id := newId;
        assert OpenStep(s0, p, mode, newId, newDataId, now) == OpenRecord(fs.store, newId, mode);
      }
      var inode := fs.ReadInode(id);
      if inode.Err? {
        return Err(inode.error);
      }
      var m := ParseMode(mode);
      if m.Err? {
        return Err(m.error);
      }
      var ob := OpenBlob(fs.store, inode.value.dataId, m.value);
      if ob.Err? {
        return Err(ob.error);
      }
      fs.store := ob.value.0;
      var h := new FileHandle(fs, id, ob.value.1);
      r := Ok(h);
    }

    /** `write(data)`. */
    method Write(data: seq<Byte>, now: Time) returns (r: Result<(), Error>)
      modifies this, fs
      ensures fs == old(fs) && inodeId == old(inodeId) && closed == old(closed)
      ensures Outcome(fs.store, inner, r) == WriteStep(old(fs.store), old(inner), closed, inodeId, data, now)
    {
      if !inner.writable {
        return Err(NotWritable);
      }
      if closed {
        return Err(StreamClosed);
      }
      var key := inner.dataId;
      if key !in fs.store {
        return Err(MissingBlob);
      }
      if fs.store[key].Entries? {
        return Err(WrongBlobKind);
      }
      var before := fs.store[key].bytes;
      var pos := if inner.append then |before| else inner.cursor;
      var after := Overwrite(before, pos, data);
      fs.store := fs.store[key := Bytes(after)];
      inner := inner.(cursor := pos + |data|);
      var inode :- fs.ReadInode(inodeId);
      inode := inode.UpdateModifiedTime(true, now);
      var previous := inner.cursor;
      inode := inode.(size := |after|);
      inner := inner.(cursor := previous);
      r := fs.WriteInode(inode, inodeId);
    }

    /** `read(size)`; a size of -1 reads to the end. */
    method Read(size: int, now: Time) returns (r: Result<seq<Byte>, Error>)
      modifies this, fs
      ensures fs == old(fs) && inodeId == old(inodeId) && closed == old(closed)
      ensures Outcome(fs.store, inner, r) == ReadStep(old(fs.store), old(inner), closed, inodeId, size, now)
    {
      var inode :- fs.ReadInode(inodeId);
      inode := inode.UpdateAccessedTime(now);
      var w := fs.WriteInode(inode, inodeId);
      if w.Err? {
        return Err(w.error);
      }
      if !inner.readable {
        return Err(NotReadable);
      }
      if size < -1 {
        return Err(BadReadSize);
      }
      if closed {
        return Err(StreamClosed);
      }
      var key := inner.dataId;
      if key !in fs.store {
        return Err(MissingBlob);
      }
      if fs.store[key].Entries? {
        return Err(WrongBlobKind);
      }
      var got := ReadRange(fs.store[key].bytes, inner.cursor, size);
      inner := inner.(cursor := inner.cursor + |got|);
      r := Ok(got);
    }

    /** `__exit__`: the handle is closed; nothing is written. */
    method Exit()
      modifies this
      ensures closed
      ensures fs == old(fs) && inodeId == old(inodeId) && inner == old(inner)
    {
      closed := true;
    }
  }
}
